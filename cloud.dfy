/** The cloud session that follows the modem bring-up. It signs a JSON Web Token, connects the
    MQTT client with a bounded number of retries, and publishes a message every ten seconds,
    resetting the board on the first failure.

    JSON serialisation and RSA signing are foreign code: the functions in `Primitives` stand
    for them. The clock readings are parameters. Connect and publish attempts come from
    success oracles. */
module Cloud {
  import opened Common
  import Base64

  /** Seconds from 1970-01-01 to 2000-01-01: the board's clock counts from 2000, while the
      token's times count from 1970. */
  const EpochOffset: int := 946684800

  /** `{"alg": algorithm, "typ": "JWT"}` */
  datatype Header = Header(alg: string, typ: string)

  /** `{"iat": ..., "exp": ..., "aud": project_id}` */
  datatype Claims = Claims(iat: int, exp: int, aud: string)

  /** Foreign functions: `ujson.dumps(...).encode('utf-8')` for the header and the claims,
      and `rsa.sign(content, PrivateKey(*key), 'SHA-256')`. */
  datatype Primitives = Primitives(
    headerJson: Header -> seq<Byte>,
    claimsJson: Claims -> seq<Byte>,
    sign: (string, seq<int>) -> seq<Byte>)

  /** The claims when the clock reads `now1` for the issue time and `now2` for the expiry:
      `utime.time()` is called once for each. */
  function ClaimsAt(projectId: string, tokenTtl: int, now1: int, now2: int): (c: Claims)
    ensures c.aud == projectId
    ensures c.exp - c.iat == tokenTtl + (now2 - now1)
    ensures now1 == now2 ==> c.exp == c.iat + tokenTtl
  {
    Claims(now1 + EpochOffset, now2 + EpochOffset + tokenTtl, projectId)
  }

  /** `create_jwt`: the compact serialisation `header.claims.signature` (section 7.1 of
      RFC 7515), with each segment in the URL-safe alphabet, and the signature taken over
      the first two segments and the dot between them. */
  function CreateJwt(p: Primitives, projectId: string, privateKey: seq<int>, algorithm: string,
                     tokenTtl: int, now1: int, now2: int): (token: string)
    ensures TokenChars(token)
    ensures |token| % 4 == 2
  {
    var header := Header(algorithm, "JWT");
    var content := Base64.UrlSafeEncode(p.headerJson(header));
    var content' := content + "." + Base64.UrlSafeEncode(p.claimsJson(ClaimsAt(projectId, tokenTtl, now1, now2)));
    var signature := Base64.UrlSafeEncode(p.sign(content', privateKey));
    JoinedShape(p.headerJson(header), p.claimsJson(ClaimsAt(projectId, tokenTtl, now1, now2)),
                p.sign(content', privateKey));
    content' + "." + signature
  }

  /** Three URL-safe segments joined by two dots: only token characters, and a length 2 past
      a multiple of 4. */
  lemma JoinedShape(h: seq<Byte>, c: seq<Byte>, sig: seq<Byte>)
    ensures var t := Base64.UrlSafeEncode(h) + "." + Base64.UrlSafeEncode(c) + "." + Base64.UrlSafeEncode(sig);
            TokenChars(t) && |t| % 4 == 2
  {
    var hs, cs, ss := Base64.UrlSafeEncode(h), Base64.UrlSafeEncode(c), Base64.UrlSafeEncode(sig);
    assert TokenChars(hs + "." + cs + "." + ss) by {
      DotJoin(hs, cs);
      DotJoin(hs + "." + cs, ss);
    }
    assert |hs + "." + cs + "." + ss| % 4 == 2 by {
      SegmentGroups(h);
      SegmentGroups(c);
      SegmentGroups(sig);
      GroupsAndDots(hs, cs, ss);
    }
  }

  /** Every segment is a whole number of 4-character groups. */
  lemma SegmentGroups(payload: seq<Byte>)
    ensures |Base64.UrlSafeEncode(payload)| % 4 == 0
  {
    var groups := (|payload| + 2) / 3;
    assert |Base64.UrlSafeEncode(payload)| == 4 * groups;
  }

  /** Three whole numbers of groups and two dots are 2 characters past a multiple of 4. */
  lemma GroupsAndDots(a: string, b: string, c: string)
    requires |a| % 4 == 0 && |b| % 4 == 0 && |c| % 4 == 0
    ensures |a + "." + b + "." + c| % 4 == 2
  {
    assert |a + "." + b + "." + c| == |a| + |b| + |c| + 2;
  }

  /** Every character is from the URL-safe alphabet, `=` or the segment separator `.`. */
  predicate TokenChars(s: string)
  {
    forall k :: 0 <= k < |s| ==> Base64.IsUrlSafeChar(s[k]) || s[k] == '.'
  }

  lemma DotJoin(a: string, b: string)
    requires TokenChars(a) && TokenChars(b)
    ensures TokenChars(a + "." + b) && |a + "." + b| == |a| + 1 + |b|
  {
    var t := a + "." + b;
    forall k | 0 <= k < |t|
      ensures Base64.IsUrlSafeChar(t[k]) || t[k] == '.'
    {
      if k < |a| {
        assert t[k] == a[k];
      } else if k > |a| {
        assert t[k] == b[k - |a| - 1];
      }
    }
  }

  /** A URL-safe segment holds no dot and decodes back to its payload. */
  lemma Segment(payload: seq<Byte>)
    ensures var s := Base64.UrlSafeEncode(payload);
            && (forall k :: 0 <= k < |s| ==> s[k] != '.')
            && Base64.Decode(Base64.Untranslate(s)) == payload
  {
    Base64.UrlSafeRoundTrip(payload);
  }

  /** Three dot-free segments joined by dots are cut back apart at the only two dots. */
  lemma ThreeSegments(a: string, b: string, c: string)
    requires forall k :: 0 <= k < |a| ==> a[k] != '.'
    requires forall k :: 0 <= k < |b| ==> b[k] != '.'
    requires forall k :: 0 <= k < |c| ==> c[k] != '.'
    ensures var t := a + "." + b + "." + c;
            var i, j := |a|, |a| + 1 + |b|;
            && j < |t| && t[i] == '.' && t[j] == '.'
            && (forall k :: 0 <= k < |t| && t[k] == '.' ==> k == i || k == j)
            && t[..i] == a && t[i + 1..j] == b && t[..j] == a + "." + b && t[j + 1..] == c
  {
    var t := a + "." + b + "." + c;
    var i, j := |a|, |a| + 1 + |b|;
    assert t[..i] == a;
    assert t[i + 1..j] == b;
    assert t[..j] == a + "." + b;
    assert t[j + 1..] == c;
  }

  /** The token's shape: the serialised header and claims in the URL-safe alphabet, joined by
      a dot, then a dot and the signature of those two segments. */
  lemma JwtSegments(p: Primitives, projectId: string, privateKey: seq<int>, algorithm: string,
                    tokenTtl: int, now1: int, now2: int)
    ensures var h := p.headerJson(Header(algorithm, "JWT"));
            var c := p.claimsJson(ClaimsAt(projectId, tokenTtl, now1, now2));
            var content := Base64.UrlSafeEncode(h) + "." + Base64.UrlSafeEncode(c);
            CreateJwt(p, projectId, privateKey, algorithm, tokenTtl, now1, now2)
              == content + "." + Base64.UrlSafeEncode(p.sign(content, privateKey))
  {
  }

  /** Three URL-safe segments joined by dots: the two dots are the only ones, and the
      pieces between them decode to the three payloads. */
  lemma JoinedSegments(h: seq<Byte>, c: seq<Byte>, sig: seq<Byte>)
    ensures var hs, cs := Base64.UrlSafeEncode(h), Base64.UrlSafeEncode(c);
            var t := hs + "." + cs + "." + Base64.UrlSafeEncode(sig);
            var i, j := |hs|, |hs| + 1 + |cs|;
            && j < |t| && t[i] == '.' && t[j] == '.'
            && (forall k :: 0 <= k < |t| && t[k] == '.' ==> k == i || k == j)
            && t[..j] == hs + "." + cs
            && Base64.Decode(Base64.Untranslate(t[..i])) == h
            && Base64.Decode(Base64.Untranslate(t[i + 1..j])) == c
            && Base64.Decode(Base64.Untranslate(t[j + 1..])) == sig
  {
    var hs, cs, ss := Base64.UrlSafeEncode(h), Base64.UrlSafeEncode(c), Base64.UrlSafeEncode(sig);
    Segment(h);
    Segment(c);
    Segment(sig);
    ThreeSegments(hs, cs, ss);
  }

  /** The token has exactly two dots. Cutting it there gives three segments that decode to
      the serialised header, the serialised claims, and the signature of the text before the
      second dot, which is the first two segments and the dot between them. */
  lemma JwtStructure(p: Primitives, projectId: string, privateKey: seq<int>, algorithm: string,
                     tokenTtl: int, now1: int, now2: int, h: seq<Byte>, c: seq<Byte>, token: string)
    requires h == p.headerJson(Header(algorithm, "JWT"))
    requires c == p.claimsJson(ClaimsAt(projectId, tokenTtl, now1, now2))
    requires token == CreateJwt(p, projectId, privateKey, algorithm, tokenTtl, now1, now2)
    ensures var hs := Base64.UrlSafeEncode(h);
            var cs := Base64.UrlSafeEncode(c);
            var i := |hs|;
            var j := i + 1 + |cs|;
            && j < |token| && token[i] == '.' && token[j] == '.'
            && (forall k :: 0 <= k < |token| && token[k] == '.' ==> k == i || k == j)
            && Base64.Decode(Base64.Untranslate(token[..i])) == h
            && Base64.Decode(Base64.Untranslate(token[i + 1..j])) == c
            && token[..j] == hs + "." + cs
            && Base64.Decode(Base64.Untranslate(token[j + 1..])) == p.sign(hs + "." + cs, privateKey)
  {
    JwtSegments(p, projectId, privateKey, algorithm, tokenTtl, now1, now2);
    JoinedSegments(h, c, p.sign(Base64.UrlSafeEncode(h) + "." + Base64.UrlSafeEncode(c), privateKey));
  }

  // ---------------------------------------------------------------------------------------
  // Connecting with retries

  /** `connect_attempts` starts here. */
  const MaxAttempts: nat := 20

  /** The connect loop: call `get_mqtt_client` until it succeeds, at most MaxAttempts times,
      counting the failures down; when the counter reaches 0 the board is reset.
      `succeeds(k)` is whether call number k (from 1) succeeds. The results are the number of
      calls made, the counter's final value, and whether the board was reset. */
  method ConnectWithRetries(succeeds: nat -> bool) returns (calls: nat, attempts: int, reset: bool)
    ensures 1 <= calls <= MaxAttempts
    ensures forall k :: 1 <= k < calls ==> !succeeds(k)
    ensures reset <==> forall k :: 1 <= k <= MaxAttempts ==> !succeeds(k)
    ensures reset ==> calls == MaxAttempts && attempts == 0
    ensures !reset ==> succeeds(calls) && attempts == MaxAttempts - (calls - 1) > 0
  {
    attempts := MaxAttempts;
    calls, reset := 0, false;
    while attempts != 0
      invariant 0 <= calls <= MaxAttempts && attempts == MaxAttempts - calls
      invariant forall k :: 1 <= k <= calls ==> !succeeds(k)
      invariant reset <==> attempts == 0
      decreases attempts
    {
      calls := calls + 1;
      if succeeds(calls) {
        assert 1 <= calls <= MaxAttempts && succeeds(calls);
        return;
      }
      attempts := attempts - 1;
      if attempts == 0 {
        reset := true;
      }
    }
  }

  // ---------------------------------------------------------------------------------------
  // Publishing

  /** The publish loop: compose and publish a message, then wait; any exception resets the
      board. `outcomes[k]` is whether round k completes without an exception. The loop runs
      over the rounds given and reports how many rounds completed and whether it reset. A
      failed round may still have sent its message: `outcomes` does not say where the
      exception came from. */
  method PublishLoop(outcomes: seq<bool>) returns (completed: nat, reset: bool)
    ensures completed <= |outcomes|
    ensures forall k :: 0 <= k < completed ==> outcomes[k]
    ensures reset <==> completed < |outcomes|
    ensures reset ==> !outcomes[completed]
  {
    completed, reset := 0, false;
    while completed < |outcomes|
      invariant completed <= |outcomes|
      invariant forall k :: 0 <= k < completed ==> outcomes[k]
    {
      if !outcomes[completed] {
        reset := true;
        return;
      }
      completed := completed + 1;
    }
  }
}
