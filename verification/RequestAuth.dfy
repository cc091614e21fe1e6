/** How a request proves knowledge of the group's auth key, and how the server checks it. */
module RequestAuth {
  import opened Basics
  import opened SyncStore
  import opened ServerRuns
  import opened KeySchedule
  import Base64Url
  import Utf8

  const NEWLINE: Byte := 10

  function Transcript(p: Primitives, httpMethod: string, path: string, body: Bytes): Bytes {
    Utf8.Encode(httpMethod) + [NEWLINE] + Utf8.Encode(path) + [NEWLINE] + p.sha256(body)
  }

  // ---------- the client ----------

  function AuthHash(p: Primitives, keys: GroupKeys): string {
    Base64Url.Encode(p.sha256(keys.kAuth))
  }

  function AuthToken(keys: GroupKeys): string {
    Base64Url.Encode(keys.kAuth)
  }

  function AuthProof(p: Primitives, keys: GroupKeys, httpMethod: string, path: string, body: Bytes): string {
    Base64Url.Encode(p.hmac(keys.kAuth, Transcript(p, httpMethod, path, body)))
  }

  // ---------- the server ----------

  datatype Verdict = Accept | Reject | Raise

  /** Comparing a stored hash with non-ASCII text raises; the same for the proof is caught. */
  function VerifyRequest(p: Primitives, db: Db, g: string, token: string, proof: string,
                         httpMethod: string, path: string, body: Bytes): Verdict {
    if g !in db.groups then
      Reject
    else
      match Base64Url.Decode(token)
      case None => Reject
      case Some(key) =>
        match CompareDigest(db.groups[g].authHash, Base64Url.Encode(p.sha256(key)))
        case None => Raise
        case Some(known) =>
          if known && CompareDigest(Base64Url.Encode(p.hmac(key, Transcript(p, httpMethod, path, body))), proof) == Some(true) then
            Accept
          else
            Reject
  }

  /** The three outcomes of verify_request, for every input: it accepts a token that decodes
      to a key with the stored digest, and a proof that is the MAC under that key of method,
      path and body digest; it raises where a stored hash that is not ASCII is to be
      compared; it rejects everything else. */
  lemma VerifyExactly(p: Primitives, db: Db, g: string, token: string, proof: string,
                      httpMethod: string, path: string, body: Bytes)
    ensures var verdict := VerifyRequest(p, db, g, token, proof, httpMethod, path, body);
            var key := Base64Url.Decode(token);
            && (verdict == Accept <==>
                  && g in db.groups && key.Some?
                  && db.groups[g].authHash == Base64Url.Encode(p.sha256(key.value))
                  && proof == Base64Url.Encode(p.hmac(key.value,
                                Utf8.Encode(httpMethod) + [10] + Utf8.Encode(path) + [10] + p.sha256(body))))
            && (verdict == Raise <==>
                  g in db.groups && key.Some? && !forall c | c in db.groups[g].authHash :: (c as int) < 128)
  {
    if g in db.groups && Base64Url.Decode(token).Some? {
      var key, stored := Base64Url.Decode(token).value, db.groups[g].authHash;
      Base64Url.EncodedIsAscii(p.sha256(key));
      Base64Url.EncodedIsAscii(p.hmac(key, Transcript(p, httpMethod, path, body)));
      AsciiByCharacters(stored, "");
      assert stored + "" == stored;
    }
  }

  /** The first section of an authenticated request, for a thread without a ticket: the
      request is admitted iff verify_request accepts it. */
  lemma AdmittedIffVerified(p: Primitives, s: Sys, thread: nat, g: string, token: string, proof: string,
                            httpMethod: string, path: string, body: Bytes, action: Action)
    requires thread !in s.tickets && g != ""
    requires Base64Url.Decode(token).Some?
    ensures var key := Base64Url.Decode(token).value;
            var ticket := Ticket(g, Base64Url.Encode(p.sha256(key)), action);
            var proofOk := proof == Base64Url.Encode(p.hmac(key, Transcript(p, httpMethod, path, body)));
            Admitted(s, Authenticate(thread, ticket, proofOk)) <==>
            VerifyRequest(p, s.db, g, token, proof, httpMethod, path, body) == Accept
  {
    var key := Base64Url.Decode(token).value;
    Base64Url.EncodedIsAscii(p.sha256(key));
    Base64Url.EncodedIsAscii(p.hmac(key, Transcript(p, httpMethod, path, body)));
  }

  /** A request signed with the group's keys over what the server receives is accepted. */
  lemma SignedIsAccepted(p: Primitives, db: Db, keys: GroupKeys, httpMethod: string, path: string, body: Bytes)
    requires keys.groupId in db.groups && db.groups[keys.groupId].authHash == AuthHash(p, keys)
    ensures VerifyRequest(p, db, keys.groupId, AuthToken(keys), AuthProof(p, keys, httpMethod, path, body),
                          httpMethod, path, body) == Accept
  {
    Base64Url.RoundTrip(keys.kAuth);
    Base64Url.EncodedIsAscii(p.sha256(keys.kAuth));
    Base64Url.EncodedIsAscii(p.hmac(keys.kAuth, Transcript(p, httpMethod, path, body)));
  }

  /** Once pairing succeeded, every later request signed with the same keys is accepted,
      whatever the server did in between. */
  lemma PairedIsAcceptedForever(p: Primitives, s: Sys, keys: GroupKeys, salt: Option<string>, later: seq<Step>,
                                httpMethod: string, path: string, body: Bytes)
    requires SysInv(s)
    requires Next(s, Pair(keys.groupId, Some(AuthHash(p, keys)), salt)).1 == PairReplied(Paired)
    ensures var db := Run(Next(s, Pair(keys.groupId, Some(AuthHash(p, keys)), salt)).0, later).db;
            VerifyRequest(p, db, keys.groupId, AuthToken(keys), AuthProof(p, keys, httpMethod, path, body),
                          httpMethod, path, body) == Accept
  {
    var step := Pair(keys.groupId, Some(AuthHash(p, keys)), salt);
    StepKeeps(s, step);
    RunKeeps(Next(s, step).0, later);
    SignedIsAccepted(p, Run(Next(s, step).0, later).db, keys, httpMethod, path, body);
  }

  /** The authentication step of a request signed with the keys: the server hashes the token's
      key and checks the proof over what it received. */
  function SignedRequest(p: Primitives, keys: GroupKeys, thread: nat, action: Action,
                         httpMethod: string, path: string, body: Bytes): Step {
    var key := if Base64Url.Decode(AuthToken(keys)).Some? then Base64Url.Decode(AuthToken(keys)).value else [];
    var expected := Base64Url.Encode(p.hmac(key, Transcript(p, httpMethod, path, body)));
    Authenticate(thread, Ticket(keys.groupId, Base64Url.Encode(p.sha256(key)), action),
                 AuthProof(p, keys, httpMethod, path, body) == expected)
  }

  /** Where verify_request accepts, the step is admitted, with a ticket for the group. */
  lemma SignedIsAdmitted(p: Primitives, s: Sys, keys: GroupKeys, thread: nat, action: Action,
                         httpMethod: string, path: string, body: Bytes)
    requires thread !in s.tickets && keys.groupId != ""
    requires VerifyRequest(p, s.db, keys.groupId, AuthToken(keys), AuthProof(p, keys, httpMethod, path, body),
                           httpMethod, path, body) == Accept
    ensures var step := SignedRequest(p, keys, thread, action, httpMethod, path, body);
            && step == Authenticate(thread, Ticket(keys.groupId, AuthHash(p, keys), action), true)
            && Admitted(s, step)
  {
    Base64Url.RoundTrip(keys.kAuth);
    AdmittedIffVerified(p, s, thread, keys.groupId, AuthToken(keys), AuthProof(p, keys, httpMethod, path, body),
                        httpMethod, path, body, action);
  }

  /** An accepted request presents a key with the digest the group registered, and the MAC
      of exactly this method, path and body under it. */
  lemma AcceptedProvesKnowledge(p: Primitives, db: Db, keys: GroupKeys, token: string, proof: string,
                                httpMethod: string, path: string, body: Bytes)
    requires keys.groupId in db.groups && db.groups[keys.groupId].authHash == AuthHash(p, keys)
    requires VerifyRequest(p, db, keys.groupId, token, proof, httpMethod, path, body) == Accept
    ensures Base64Url.Decode(token).Some?
    ensures p.sha256(Base64Url.Decode(token).value) == p.sha256(keys.kAuth)
    ensures Base64Url.Decode(proof) == Some(p.hmac(Base64Url.Decode(token).value, Transcript(p, httpMethod, path, body)))
  {
    var key := Base64Url.Decode(token).value;
    Base64Url.EncodeInjective(p.sha256(key), p.sha256(keys.kAuth));
    Base64Url.RoundTrip(p.hmac(key, Transcript(p, httpMethod, path, body)));
  }

  // ---------- what the transcript binds ----------

  lemma {:induction false} NoNewlineByte(s: string)
    requires '\n' !in s
    ensures NEWLINE !in Utf8.Encode(s)
    decreases s
  {
    if s == "" {
    } else {
      assert s[0] in s;
      assert NEWLINE !in Utf8.EncodeChar(s[0]);
      NoNewlineByte(s[1..]);
    }
  }

  lemma FirstNewlineSplits(a: Bytes, x: Bytes, b: Bytes, y: Bytes)
    requires NEWLINE !in a && NEWLINE !in b
    requires a + [NEWLINE] + x == b + [NEWLINE] + y
    ensures a == b && x == y
  {
    var s, t := a + [NEWLINE] + x, b + [NEWLINE] + y;
    assert s[|a|] == NEWLINE && t[|b|] == NEWLINE;
    assert forall i | 0 <= i < |a| :: s[i] == a[i] && a[i] in a;
    assert forall i | 0 <= i < |b| :: t[i] == b[i] && b[i] in b;
    assert |a| == |b|;
    assert a == s[..|a|] && b == t[..|b|];
    assert x == s[|a| + 1..] && y == t[|b| + 1..];
  }

  lemma EqualTailsSplit(x: Bytes, d: Bytes, y: Bytes, e: Bytes)
    requires |d| == |e| && x + [NEWLINE] + d == y + [NEWLINE] + e
    ensures x == y && d == e
  {
    var s, t := x + [NEWLINE] + d, y + [NEWLINE] + e;
    assert x == s[..|x|] && y == t[..|y|];
    assert d == s[|x| + 1..] && e == t[|y| + 1..];
  }

  /** A method has no newline, and then the transcript determines method, path and body
      digest, whatever the path contains. */
  lemma TranscriptBinds(p: Primitives, m: string, path: string, body: Bytes, m': string, path': string, body': Bytes)
    requires '\n' !in m && '\n' !in m'
    requires Transcript(p, m, path, body) == Transcript(p, m', path', body')
    ensures m == m' && path == path'
    ensures p.sha256(body) == p.sha256(body')
  {
    NoNewlineByte(m);
    NoNewlineByte(m');
    var a, a' := Utf8.Encode(m), Utf8.Encode(m');
    var x, d := Utf8.Encode(path), p.sha256(body);
    var y, e := Utf8.Encode(path'), p.sha256(body');
    SplitTranscript(a, x, d);
    SplitTranscript(a', y, e);
    FirstNewlineSplits(a, x + [NEWLINE] + d, a', y + [NEWLINE] + e);
    EqualTailsSplit(x, d, y, e);
    Utf8.EncodeInjective(m, m');
    Utf8.EncodeInjective(path, path');
  }

  lemma SplitTranscript(a: Bytes, x: Bytes, d: Bytes)
    ensures a + [NEWLINE] + x + [NEWLINE] + d == a + [NEWLINE] + (x + [NEWLINE] + d)
  {
  }
}
