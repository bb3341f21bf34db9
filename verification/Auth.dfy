/** Bearer authentication of CONNECT requests (internal/quicx/auth.go).

    HMAC-SHA256, the trimming and case folding of Go's strings package and the
    base64url text of a token are library calls: here they are arbitrary functions,
    bundled in `Library`.  Strings are their UTF-8 bytes.  A reading of
    the clock has two parts, as a Go time.Time does: the wall clock, in nanoseconds since
    the Unix epoch, and the monotonic clock.  A token's timestamp has no monotonic part,
    so the skew check compares wall clocks; two readings of the cache are compared by
    their monotonic parts alone. */
module Auth {
  import opened Bytes
  import opened ReplayCache

  const AUTH_VERSION: byte := 5
  const KEY_LEN := 32
  const NONCE_LEN := 16
  const MAC_LEN := 32
  const TOKEN_LEN := 1 + 8 + NONCE_LEN + MAC_LEN
  const SECOND := 1_000_000_000

  /** The wall clock: its seconds fit an int64. */
  type Time = t: int | -0x8000_0000_0000_0000 <= t / SECOND < 0x8000_0000_0000_0000

  datatype Library = Library(
    hmac: (bytes, bytes) -> bytes,
    trimUpper: bytes -> bytes,
    trimLower: bytes -> bytes,
    bearer: bytes -> bytes,              // "Bearer " and the base64url text of a token
    parseBearer: bytes -> Option<bytes>  // None for a header Validate cannot take a token from
  ) {
    /** What is assumed of the library calls. */
    ghost predicate Sound() {
      && (forall key, input :: |hmac(key, input)| == MAC_LEN)
      && (forall token :: parseBearer(bearer(token)) == Some(token))
    }
  }

  datatype Fields = Fields(httpMethod: bytes, authority: bytes, serverName: bytes)

  predicate Short(f: Fields) {
    |f.httpMethod| <= 65535 && |f.authority| <= 65535 && |f.serverName| <= 65535
  }

  function Normalize(lib: Library, f: Fields): (r: Option<Fields>)
    ensures r.Some? ==> Short(r.value)
  {
    var n := Fields(lib.trimUpper(f.httpMethod), lib.trimLower(f.authority), lib.trimLower(f.serverName));
    if n.httpMethod == [] || n.authority == [] || n.serverName == [] then None
    else if |n.httpMethod| > 65535 || |n.authority| > 65535 || |n.serverName| > 65535 then None
    else Some(n)
  }

  // ---------- The canonical input ----------

  function Sized(field: bytes): (r: bytes)
    requires |field| <= 65535
    ensures |r| == 2 + |field|
  {
    PutUint16(|field|) + field
  }

  function Canonical(timestamp: int64, nonce: bytes, f: Fields): bytes
    requires Short(f)
  {
    [AUTH_VERSION] + PutUint64(ToUint64(timestamp)) + nonce
    + (Sized(f.httpMethod) + (Sized(f.authority) + Sized(f.serverName)))
  }

  /** canonicalAuthInput: the buffer loop writes the canonical input, or fails. */
  method CanonicalAuthInput(timestamp: int64, nonce: bytes, f: Fields) returns (r: Option<bytes>)
    ensures r == if |nonce| == NONCE_LEN && Short(f) then Some(Canonical(timestamp, nonce, f)) else None
  {
    if |nonce| != NONCE_LEN {
      return None;
    }
    var buf := [AUTH_VERSION] + PutUint64(ToUint64(timestamp)) + nonce;
    ghost var head := buf;
    var fields := [f.httpMethod, f.authority, f.serverName];
    for i := 0 to |fields|
      invariant forall j :: 0 <= j < i ==> |fields[j]| <= 65535
      invariant i == 0 ==> buf == head
      invariant i == 1 ==> buf == head + Sized(fields[0])
      invariant i == 2 ==> buf == head + Sized(fields[0]) + Sized(fields[1])
      invariant i == 3 ==> buf == head + Sized(fields[0]) + Sized(fields[1]) + Sized(fields[2])
    {
      if |fields[i]| > 65535 {
        return None;
      }
      buf := buf + PutUint16(|fields[i]|) + fields[i];
    }
    assert buf == Canonical(timestamp, nonce, f);
    return Some(buf);
  }

  /** The layout of the canonical input: version 5, the timestamp as a big-endian two's
      complement number, the nonce, then method, authority and server name in this order,
      each behind its big-endian size. */
  lemma CanonicalLayout(timestamp: int64, nonce: bytes, f: Fields)
    requires |nonce| == 16 && Short(f)
    ensures var c := Canonical(timestamp, nonce, f);
            var a := 27 + |f.httpMethod|;
            var s := a + 2 + |f.authority|;
            && |c| == s + 2 + |f.serverName|
            && c[0] == 5 && ToInt64(Uint64(c[1..9])) == timestamp && c[9..25] == nonce
            && c[25] as int * 256 + c[26] == |f.httpMethod| && c[27..a] == f.httpMethod
            && c[a] as int * 256 + c[a + 1] == |f.authority| && c[a + 2..s] == f.authority
            && c[s] as int * 256 + c[s + 1] == |f.serverName| && c[s + 2..] == f.serverName
  {
    var c := Canonical(timestamp, nonce, f);
    var tail := Sized(f.authority) + Sized(f.serverName);
    assert c[1..9] == PutUint64(ToUint64(timestamp));
    Uint64RoundTrip(ToUint64(timestamp));
    assert c[9..25] == nonce;
    assert c[25..] == Sized(f.httpMethod) + tail;
    SizedLayout(c, 25, f.httpMethod, tail);
    SizedLayout(c, 27 + |f.httpMethod|, f.authority, Sized(f.serverName));
    assert Sized(f.serverName) + [] == Sized(f.serverName);
    SizedLayout(c, 29 + |f.httpMethod| + |f.authority|, f.serverName, []);
  }

  lemma SizedLayout(c: bytes, at: nat, field: bytes, rest: bytes)
    requires |field| <= 65535 && at <= |c| && c[at..] == Sized(field) + rest
    ensures |c| == at + 2 + |field| + |rest|
    ensures c[at] as int * 256 + c[at + 1] == |field| && c[at + 2..at + 2 + |field|] == field
    ensures c[at + 2 + |field|..] == rest
  {
    var tail := c[at..];
    assert tail[0] == c[at] && tail[1] == c[at + 1];
    assert tail[2..2 + |field|] == field && tail[2 + |field|..] == rest;
  }

  /** Length-prefixed fields can be told apart from what follows them. */
  lemma SizedInjective(a: bytes, b: bytes, x: bytes, y: bytes)
    requires |a| <= 65535 && |b| <= 65535
    requires Sized(a) + x == Sized(b) + y
    ensures a == b && x == y
  {
    var l, r := Sized(a) + x, Sized(b) + y;
    assert l[..2] == PutUint16(|a|) && r[..2] == PutUint16(|b|);
    Uint16RoundTrip(|a|);
    Uint16RoundTrip(|b|);
    assert l[2..2 + |a|] == a && r[2..2 + |a|] == b;
    assert l[2 + |a|..] == x && r[2 + |a|..] == y;
  }

  /** The canonical input is injective. */
  lemma CanonicalInjective(t: int64, n: bytes, f: Fields, t': int64, n': bytes, f': Fields)
    requires |n| == |n'| == NONCE_LEN && Short(f) && Short(f')
    requires Canonical(t, n, f) == Canonical(t', n', f')
    ensures t == t' && n == n' && f == f'
  {
    var tail := Sized(f.authority) + Sized(f.serverName);
    var tail' := Sized(f'.authority) + Sized(f'.serverName);
    assert Canonical(t, n, f)[1..9] == PutUint64(ToUint64(t));
    assert Canonical(t', n', f')[1..9] == PutUint64(ToUint64(t'));
    Uint64RoundTrip(ToUint64(t));
    Uint64RoundTrip(ToUint64(t'));
    assert Canonical(t, n, f)[9..25] == n;
    assert Canonical(t', n', f')[9..25] == n';
    assert Canonical(t, n, f)[25..] == Sized(f.httpMethod) + tail;
    assert Canonical(t', n', f')[25..] == Sized(f'.httpMethod) + tail';
    SizedInjective(f.httpMethod, f'.httpMethod, tail, tail');
    SizedInjective(f.authority, f'.authority, Sized(f.serverName), Sized(f'.serverName));
    assert Sized(f.serverName) + [] == Sized(f'.serverName) + [];
    SizedInjective(f.serverName, f'.serverName, [], []);
  }

  // ---------- Tokens ----------

  /** Sign, given the nonce drawn (None when the random source fails). */
  function SignToken(lib: Library, key: bytes, f: Fields, nonce: Option<bytes>, now: Time): (r: Option<bytes>)
    requires nonce.Some? ==> |nonce.value| == NONCE_LEN
  {
    var n := Normalize(lib, f);
    if n.None? || nonce.None? then None
    else
      var timestamp: int64 := now / SECOND;
      var mac := lib.hmac(key, Canonical(timestamp, nonce.value, n.value));
      Some([AUTH_VERSION] + PutUint64(ToUint64(timestamp)) + nonce.value + mac)
  }

  function Timestamp(token: bytes): int64
    requires |token| == TOKEN_LEN
  {
    ToInt64(Uint64(token[1..9]))
  }

  function Nonce(token: bytes): bytes
    requires |token| == TOKEN_LEN
  {
    token[9..9 + NONCE_LEN]
  }

  /** The token was issued within the allowed clock skew of `now`. */
  predicate InSkew(timestamp: int64, maxSkew: nat, now: int) {
    now - maxSkew <= timestamp * SECOND <= now + maxSkew
  }

  predicate MacMatches(lib: Library, keys: seq<bytes>, input: bytes, mac: bytes) {
    exists i :: 0 <= i < |keys| && lib.hmac(keys[i], input) == mac
  }

  datatype Request = Request(header: bytes, fields: Fields, wall: Time, mono: int)

  /** The token of a request that passes every check before the replay cache. */
  function Admit(lib: Library, keys: seq<bytes>, maxSkew: nat, q: Request): (r: Option<bytes>)
    ensures r.Some? ==> |r.value| == TOKEN_LEN
  {
    var parsed := lib.parseBearer(q.header);
    if parsed.None? || |parsed.value| != TOKEN_LEN || parsed.value[0] != AUTH_VERSION then None
    else
      var token := parsed.value;
      if !InSkew(Timestamp(token), maxSkew, q.wall) then None
      else
        var n := Normalize(lib, q.fields);
        if n.None? then None
        else if MacMatches(lib, keys, Canonical(Timestamp(token), Nonce(token), n.value), token[25..]) then Some(token)
        else None
  }

  /** Exactly which requests pass the checks before the replay cache: a 57-byte token of
      version 5, at most maxSkew nanoseconds from the wall clock, fields that are neither
      empty nor too long once trimmed and folded, and the MAC of one of the keys. */
  lemma AdmitIff(lib: Library, keys: seq<bytes>, maxSkew: nat, q: Request, token: bytes)
    ensures Admit(lib, keys, maxSkew, q) == Some(token) <==>
              && lib.parseBearer(q.header) == Some(token) && |token| == 57 && token[0] == 5
              && var timestamp: int64 := ToInt64(Uint64(token[1..9]));
                 && q.wall - maxSkew <= timestamp * 1_000_000_000 <= q.wall + maxSkew
                 && var f := Fields(lib.trimUpper(q.fields.httpMethod), lib.trimLower(q.fields.authority),
                                    lib.trimLower(q.fields.serverName));
                    && 0 < |f.httpMethod| <= 65535 && 0 < |f.authority| <= 65535 && 0 < |f.serverName| <= 65535
                    && exists key :: key in keys && lib.hmac(key, Canonical(timestamp, token[9..25], f)) == token[25..]
  {
    if |token| == TOKEN_LEN && Normalize(lib, q.fields).Some? {
      var input := Canonical(Timestamp(token), Nonce(token), Normalize(lib, q.fields).value);
      if key :| key in keys && lib.hmac(key, input) == token[25..] {
        var i :| 0 <= i < |keys| && keys[i] == key;
        assert MacMatches(lib, keys, input, token[25..]);
      } else {
        assert !MacMatches(lib, keys, input, token[25..]);
      }
    }
  }

  function ToAttempt(lib: Library, keys: seq<bytes>, maxSkew: nat, q: Request): Attempt {
    var token := Admit(lib, keys, maxSkew, q);
    Attempt(if token.Some? then Some(Nonce(token.value)) else None, q.mono)
  }

  function Window(maxSkew: nat): nat {
    2 * maxSkew + SECOND
  }

  class Authenticator {
    const lib: Library
    const keys: seq<bytes>
    const maxSkew: nat
    const replay: Cache

    ghost predicate Valid()
      reads this, replay
    {
      keys != [] && replay.Valid() && replay.window == Window(maxSkew)
    }

    constructor (lib: Library, keys: seq<bytes>, maxSkew: nat, replayCapacity: nat)
      requires keys != [] && maxSkew > 0 && replayCapacity > 0
      ensures Valid() && this.lib == lib && this.keys == keys && this.maxSkew == maxSkew
      ensures fresh(replay) && replay.order == [] && replay.capacity == replayCapacity
      ensures replay.window == 2 * maxSkew + 1_000_000_000
    {
      this.lib, this.keys, this.maxSkew := lib, keys, maxSkew;
      replay := new Cache(replayCapacity, 2 * maxSkew + SECOND);
    }

    /** NewAuthenticator: fails on an empty or malformed key list and on limits that are
        not positive. */
    static method New(lib: Library, keys: seq<bytes>, maxSkew: int, replayCapacity: int) returns (r: Option<Authenticator>)
      ensures r.Some? <==> keys != [] && maxSkew > 0 && replayCapacity > 0
                           && forall i :: 0 <= i < |keys| ==> |keys[i]| == 32
      ensures r.Some? ==>
                && fresh(r.value) && fresh(r.value.replay) && r.value.Valid()
                && r.value.lib == lib && r.value.keys == keys && r.value.maxSkew == maxSkew
                && r.value.replay.order == [] && r.value.replay.capacity == replayCapacity
    {
      if |keys| == 0 || maxSkew <= 0 || replayCapacity <= 0 {
        return None;
      }
      for i := 0 to |keys|
        invariant forall j :: 0 <= j < i ==> |keys[j]| == KEY_LEN
      {
        if |keys[i]| != KEY_LEN {
          return None;
        }
      }
      var a := new Authenticator(lib, keys, maxSkew, replayCapacity);
      return Some(a);
    }

    method Sign(f: Fields, nonce: Option<bytes>, now: Time) returns (header: Option<bytes>)
      requires Valid() && (nonce.Some? ==> |nonce.value| == NONCE_LEN)
      ensures header == match SignToken(lib, keys[0], f, nonce, now)
                        case Some(token) => Some(lib.bearer(token))
                        case None => None
    {
      var n := Normalize(lib, f);
      if n.None? || nonce.None? {
        return None;
      }
      var timestamp: int64 := now / SECOND;
      var input := CanonicalAuthInput(timestamp, nonce.value, n.value);
      if input.None? {
        return None;
      }
      var token := [AUTH_VERSION] + PutUint64(ToUint64(timestamp)) + nonce.value + lib.hmac(keys[0], input.value);
      return Some(lib.bearer(token));
    }

    /** Validate takes one step of the cache model: nothing at all changes when a parse,
        skew, field or MAC check fails. */
    method Validate(q: Request) returns (ok: bool)
      requires Valid()
      modifies replay
      ensures Valid()
      ensures (replay.order, ok)
              == OrderStep(old(replay.order), replay.capacity, replay.window, ToAttempt(lib, keys, maxSkew, q))
      ensures Admit(lib, keys, maxSkew, q).None? ==> !ok && unchanged(replay)
      ensures var token := Admit(lib, keys, maxSkew, q);
              ok <==> token.Some? && !StillCached(old(replay.order), token.value[9..25], q.mono)
    {
      AcceptedIff(lib, keys, maxSkew, q, replay.order, replay.capacity);
      var parsed := lib.parseBearer(q.header);
      if parsed.None? || |parsed.value| != TOKEN_LEN || parsed.value[0] != AUTH_VERSION {
        return false;
      }
      var token := parsed.value;
      var timestamp := ToInt64(Uint64(token[1..9]));
      var issuedAt := timestamp * SECOND;
      if issuedAt < q.wall - maxSkew || issuedAt > q.wall + maxSkew {
        return false;
      }
      var nonce, providedMac := token[9..9 + NONCE_LEN], token[9 + NONCE_LEN..];
      var n := Normalize(lib, q.fields);
      if n.None? {
        return false;
      }
      var input := CanonicalAuthInput(timestamp, nonce, n.value);
      if input.None? {
        return false;
      }
      var matched := false;
      for i := 0 to |keys|
        invariant matched <==> exists j :: 0 <= j < i && lib.hmac(keys[j], input.value) == providedMac
      {
        if lib.hmac(keys[i], input.value) == providedMac {
          matched := true;
        }
      }
      if !matched {
        return false;
      }
      ok := replay.Add(nonce, q.mono);
    }
  }

  /** Validate accepts a request exactly when it passes all checks and the cache does not
      hold the nonce any more. */
  lemma AcceptedIff(lib: Library, keys: seq<bytes>, maxSkew: nat, q: Request, order: seq<Entry>, capacity: nat)
    requires capacity > 0
    ensures var token := Admit(lib, keys, maxSkew, q);
            OrderStep(order, capacity, Window(maxSkew), ToAttempt(lib, keys, maxSkew, q)).1
            <==> token.Some? && !StillCached(order, token.value[9..25], q.mono)
  {
    var token := Admit(lib, keys, maxSkew, q);
    if token.Some? {
      StillCachedIff(order, Nonce(token.value), q.mono);
    }
  }

  // ---------- Sign and Validate ----------

  /** A signed token: 57 bytes, version 5, the second it was issued in, the nonce. */
  lemma TokenLayout(lib: Library, key: bytes, f: Fields, nonce: bytes, issued: Time)
    requires lib.Sound() && |nonce| == 16 && SignToken(lib, key, f, Some(nonce), issued).Some?
    ensures var token := SignToken(lib, key, f, Some(nonce), issued).value;
            && |token| == 57 && token[0] == 5 && token[9..25] == nonce
            && ToInt64(Uint64(token[1..9])) * 1_000_000_000 == issued - issued % 1_000_000_000
            && Normalize(lib, f).Some?
            && token[25..] == lib.hmac(key, Canonical(Timestamp(token), nonce, Normalize(lib, f).value))
  {
    var timestamp: int64 := issued / SECOND;
    var token := SignToken(lib, key, f, Some(nonce), issued).value;
    assert token[1..9] == PutUint64(ToUint64(timestamp));
    Uint64RoundTrip(ToUint64(timestamp));
    assert token[9..25] == nonce;
    assert token[25..] == lib.hmac(key, Canonical(timestamp, nonce, Normalize(lib, f).value));
  }

  /** A signed token passes all checks of any validator that has the key, when the fields
      agree after normalisation, exactly when its second began at most maxSkew before or
      after the validator's wall clock. */
  lemma SignedIsAdmitted(lib: Library, key: bytes, f: Fields, nonce: bytes, issued: Time,
                         keys: seq<bytes>, maxSkew: nat, q: Request)
    requires lib.Sound() && |nonce| == NONCE_LEN
    requires SignToken(lib, key, f, Some(nonce), issued).Some?
    requires q.header == lib.bearer(SignToken(lib, key, f, Some(nonce), issued).value)
    requires key in keys && Normalize(lib, q.fields) == Normalize(lib, f)
    ensures var token := SignToken(lib, key, f, Some(nonce), issued).value;
            && |token| == TOKEN_LEN && Nonce(token) == nonce
            && Admit(lib, keys, maxSkew, q)
               == if q.wall - maxSkew <= issued - issued % 1_000_000_000 <= q.wall + maxSkew then Some(token) else None
  {
    var token := SignToken(lib, key, f, Some(nonce), issued).value;
    TokenLayout(lib, key, f, nonce, issued);
    var i :| 0 <= i < |keys| && keys[i] == key;
    assert MacMatches(lib, keys, Canonical(Timestamp(token), nonce, Normalize(lib, f).value), token[25..]);
  }

  /** An honest client: timestamps are rounded down to the second, so a token presented
      within a second less than the skew of its issue, before or after, is admitted. */
  lemma PromptIsAdmitted(lib: Library, key: bytes, f: Fields, nonce: bytes, issued: Time,
                         keys: seq<bytes>, maxSkew: nat, q: Request)
    requires lib.Sound() && |nonce| == NONCE_LEN
    requires SignToken(lib, key, f, Some(nonce), issued).Some?
    requires q.header == lib.bearer(SignToken(lib, key, f, Some(nonce), issued).value)
    requires key in keys && Normalize(lib, q.fields) == Normalize(lib, f)
    requires maxSkew >= 1_000_000_000
    requires issued - (maxSkew - 1_000_000_000) <= q.wall <= issued + (maxSkew - 1_000_000_000)
    ensures Admit(lib, keys, maxSkew, q) == SignToken(lib, key, f, Some(nonce), issued)
  {
    SignedIsAdmitted(lib, key, f, nonce, issued, keys, maxSkew, q);
  }

  /** Sign/Validate agreement: such a request is accepted exactly when the timestamp is
      within the skew and the cache does not hold the nonce any more. */
  lemma SignedIsAccepted(lib: Library, key: bytes, f: Fields, nonce: bytes, issued: Time,
                         keys: seq<bytes>, maxSkew: nat, q: Request, order: seq<Entry>, capacity: nat)
    requires lib.Sound() && |nonce| == NONCE_LEN && capacity > 0
    requires SignToken(lib, key, f, Some(nonce), issued).Some?
    requires q.header == lib.bearer(SignToken(lib, key, f, Some(nonce), issued).value)
    requires key in keys && Normalize(lib, q.fields) == Normalize(lib, f)
    ensures OrderStep(order, capacity, Window(maxSkew), ToAttempt(lib, keys, maxSkew, q)).1
            <==> q.wall - maxSkew <= issued - issued % 1_000_000_000 <= q.wall + maxSkew && !StillCached(order, nonce, q.mono)
  {
    StillCachedIff(order, nonce, q.mono);
    SignedIsAdmitted(lib, key, f, nonce, issued, keys, maxSkew, q);
  }

  /** Two inputs with the same MAC under keys from the list. */
  ghost predicate Collision(lib: Library, keys: seq<bytes>, m: bytes, m': bytes) {
    m != m' && exists k, k' :: k in keys && k' in keys && lib.hmac(k, m) == lib.hmac(k', m')
  }

  /** An admitted token fixes the normalised method, authority and server name it can be
      presented with, or else the two requests exhibit a collision of the MAC. */
  lemma TokenIsBound(lib: Library, keys: seq<bytes>, maxSkew: nat, q: Request, q': Request)
    requires Admit(lib, keys, maxSkew, q).Some? && Admit(lib, keys, maxSkew, q') == Admit(lib, keys, maxSkew, q)
    ensures var token := Admit(lib, keys, maxSkew, q).value;
            var n, n' := Normalize(lib, q.fields), Normalize(lib, q'.fields);
            && n.Some? && n'.Some?
            && (n == n' || Collision(lib, keys, Canonical(Timestamp(token), Nonce(token), n.value),
                                     Canonical(Timestamp(token), Nonce(token), n'.value)))
  {
    var token := Admit(lib, keys, maxSkew, q).value;
    var n, n' := Normalize(lib, q.fields).value, Normalize(lib, q'.fields).value;
    var input := Canonical(Timestamp(token), Nonce(token), n);
    var input' := Canonical(Timestamp(token), Nonce(token), n');
    var i :| 0 <= i < |keys| && lib.hmac(keys[i], input) == token[25..];
    var j :| 0 <= j < |keys| && lib.hmac(keys[j], input') == token[25..];
    if input == input' {
      CanonicalInjective(Timestamp(token), Nonce(token), n, Timestamp(token), Nonce(token), n');
    } else {
      assert keys[i] in keys && keys[j] in keys && lib.hmac(keys[i], input) == lib.hmac(keys[j], input');
    }
  }

  // ---------- No replay ----------

  /** A run of requests as the replay cache sees it. */
  function Attempts(lib: Library, keys: seq<bytes>, maxSkew: nat, qs: seq<Request>): (attempts: seq<Attempt>)
    ensures |attempts| == |qs|
    ensures forall i :: 0 <= i < |qs| ==> attempts[i] == ToAttempt(lib, keys, maxSkew, qs[i])
  {
    if qs == [] then []
    else Attempts(lib, keys, maxSkew, qs[..|qs| - 1]) + [ToAttempt(lib, keys, maxSkew, qs[|qs| - 1])]
  }

  /** The k-th request of the run is accepted. */
  predicate RequestAccepted(lib: Library, keys: seq<bytes>, maxSkew: nat, capacity: nat, qs: seq<Request>, k: nat)
    requires capacity > 0 && k < |qs|
  {
    AcceptedAt(capacity, Window(maxSkew), Attempts(lib, keys, maxSkew, qs), k)
  }

  lemma AdmittedInSkew(lib: Library, keys: seq<bytes>, maxSkew: nat, q: Request)
    requires Admit(lib, keys, maxSkew, q).Some?
    ensures InSkew(Timestamp(Admit(lib, keys, maxSkew, q).value), maxSkew, q.wall)
  {
  }

  /** Two requests with one token are at most twice the skew apart on the wall clock, so
      a request in between is inside the window on the monotonic clock. */
  lemma WindowCoversSkew(lib: Library, keys: seq<bytes>, maxSkew: nat, q: Request, between: Request, q': Request)
    requires Admit(lib, keys, maxSkew, q).Some? && Admit(lib, keys, maxSkew, q') == Admit(lib, keys, maxSkew, q)
    requires between.mono - q.mono < q'.wall - q.wall + SECOND
    ensures between.mono < q.mono + Window(maxSkew)
  {
    AdmittedInSkew(lib, keys, maxSkew, q);
    AdmittedInSkew(lib, keys, maxSkew, q');
  }

  lemma InsideWindow(lib: Library, keys: seq<bytes>, maxSkew: nat, qs: seq<Request>, attempts: seq<Attempt>, i: nat, j: nat)
    requires i < j < |qs| == |attempts|
    requires forall m :: 0 <= m < |qs| ==> attempts[m] == ToAttempt(lib, keys, maxSkew, qs[m])
    requires Admit(lib, keys, maxSkew, qs[i]).Some?
    requires Admit(lib, keys, maxSkew, qs[j]) == Admit(lib, keys, maxSkew, qs[i])
    requires forall m :: i < m <= j && Admit(lib, keys, maxSkew, qs[m]).Some? ==>
               qs[m].mono - qs[i].mono < qs[j].wall - qs[i].wall + SECOND
    ensures attempts[i].nonce == Some(Nonce(Admit(lib, keys, maxSkew, qs[i]).value)) == attempts[j].nonce
    ensures forall m :: i < m <= j ==> !Outlasts(Window(maxSkew), attempts, i, m)
  {
    forall m | i < m <= j ensures !Outlasts(Window(maxSkew), attempts, i, m) {
      if Admit(lib, keys, maxSkew, qs[m]).Some? {
        WindowCoversSkew(lib, keys, maxSkew, qs[i], qs[m], qs[j]);
      }
    }
  }

  /** No replay over whole runs of Validate.  Request i is the last accepted one with a
      token's nonce before request j presents the same token again and passes every
      check before the cache.  If, for each request that reaches the cache up to j, the
      monotonic clock has advanced less than a second more than the wall clock does
      between i and j, the second use is accepted if and only if at least `capacity`
      other nonces were accepted in between: the window outlasts the token's acceptance
      interval. */
  lemma TokenNotReplayed(lib: Library, keys: seq<bytes>, maxSkew: nat, capacity: nat, qs: seq<Request>, i: nat, j: nat)
    requires capacity > 0 && i < j < |qs|
    requires Admit(lib, keys, maxSkew, qs[i]).Some?
    requires Admit(lib, keys, maxSkew, qs[j]) == Admit(lib, keys, maxSkew, qs[i])
    requires RequestAccepted(lib, keys, maxSkew, capacity, qs, i)
    requires forall m :: i < m < j ==> !AcceptedAgain(capacity, Window(maxSkew), Attempts(lib, keys, maxSkew, qs), i, m)
    requires forall m :: i < m <= j && Admit(lib, keys, maxSkew, qs[m]).Some? ==>
               qs[m].mono - qs[i].mono < qs[j].wall - qs[i].wall + SECOND
    ensures var attempts := Attempts(lib, keys, maxSkew, qs);
            var history := History(capacity, Window(maxSkew), attempts, j);
            var at := |History(capacity, Window(maxSkew), attempts, i)|;
            && at < |history| && history[at].key == Nonce(Admit(lib, keys, maxSkew, qs[i]).value)
            && (RequestAccepted(lib, keys, maxSkew, capacity, qs, j) <==> |history| - at - 1 >= capacity)
            && (forall p, q :: at <= p < q < |history| && q <= at + capacity ==> history[p].key != history[q].key)
  {
    var attempts := Attempts(lib, keys, maxSkew, qs);
    InsideWindow(lib, keys, maxSkew, qs, attempts, i, j);
    NoReplay(capacity, Window(maxSkew), attempts, i, j);
  }

  /** The exact condition, on the monotonic clock alone: when no request reached the cache
      with a later reading before request i, its token is accepted again if and only if
      `capacity` other nonces were accepted in between or a request that reached the
      cache since, the second use included, was at least a window later. */
  lemma TokenReplayIff(lib: Library, keys: seq<bytes>, maxSkew: nat, capacity: nat, qs: seq<Request>, i: nat, j: nat)
    requires capacity > 0 && i < j < |qs|
    requires Admit(lib, keys, maxSkew, qs[i]).Some?
    requires Admit(lib, keys, maxSkew, qs[j]) == Admit(lib, keys, maxSkew, qs[i])
    requires RequestAccepted(lib, keys, maxSkew, capacity, qs, i)
    requires forall m :: i < m < j ==> !AcceptedAgain(capacity, Window(maxSkew), Attempts(lib, keys, maxSkew, qs), i, m)
    requires forall m :: 0 <= m < i && Admit(lib, keys, maxSkew, qs[m]).Some? ==> qs[m].mono <= qs[i].mono
    ensures var attempts := Attempts(lib, keys, maxSkew, qs);
            RequestAccepted(lib, keys, maxSkew, capacity, qs, j) <==>
              || |History(capacity, Window(maxSkew), attempts, j)| - |History(capacity, Window(maxSkew), attempts, i)| - 1 >= capacity
              || exists m :: i < m <= j && Admit(lib, keys, maxSkew, qs[m]).Some? && qs[m].mono - qs[i].mono >= Window(maxSkew)
  {
    var attempts := Attempts(lib, keys, maxSkew, qs);
    ReplayIff(capacity, Window(maxSkew), attempts, i, j);
    forall m | i < m <= j
      ensures Outlasts(Window(maxSkew), attempts, i, m) <==>
                Admit(lib, keys, maxSkew, qs[m]).Some? && qs[m].mono - qs[i].mono >= Window(maxSkew)
    {
    }
  }

  /** The clocks matter: when the monotonic clock has passed the window and the wall clock
      has been stepped back, the very same request is accepted twice in a row. */
  lemma WallStepForgets(lib: Library, keys: seq<bytes>, maxSkew: nat, capacity: nat, q: Request, mono: int)
    requires capacity > 0 && Admit(lib, keys, maxSkew, q).Some? && mono >= q.mono + Window(maxSkew)
    ensures var qs := [q, q.(mono := mono)];
            && RequestAccepted(lib, keys, maxSkew, capacity, qs, 0)
            && RequestAccepted(lib, keys, maxSkew, capacity, qs, 1)
  {
    var qs := [q, q.(mono := mono)];
    var attempts := Attempts(lib, keys, maxSkew, qs);
    assert attempts[0] == ToAttempt(lib, keys, maxSkew, qs[0]) && attempts[1] == ToAttempt(lib, keys, maxSkew, qs[1]);
    assert OrderAt(capacity, Window(maxSkew), attempts, 0) == [];
    assert AcceptedAt(capacity, Window(maxSkew), attempts, 0);
    OutlastedIsForgotten(capacity, Window(maxSkew), attempts, 0, 1, 1);
  }
}
