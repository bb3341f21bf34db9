/** Target requests: the address codec (internal/chimera/chimera.go), the SOCKS5 request
    parser that feeds it (cmd/chimera-client/main.go; section 4 of RFC 1928), and the
    whole chain over the padding stream. */
module Target {
  import opened Bytes
  import opened PadStream
  import opened PadConn
  import NetIP

  const CMD_CONNECT: byte := 1
  const ATYP_IPV4: byte := 1
  const ATYP_DOMAIN: byte := 3
  const ATYP_IPV6: byte := 4

  datatype Address = Address(kind: byte, ip: bytes, domain: bytes, port: uint16)

  datatype ReadError = ShortInput | EmptyDomain | UnsupportedType | BadVersion | BadCommand

  /** A parse: the value and the bytes after it, or an error. */
  datatype Parse<T> = Got(value: T, rest: bytes) | Failed(error: ReadError)

  // ---------- Writing ----------

  /** The bytes WriteAddress writes; None when it refuses. */
  function AddressBytes(a: Address): Option<bytes> {
    if a.kind == ATYP_IPV4 then Some([ATYP_IPV4] + NetIP.To4(a.ip) + PutUint16(a.port))
    else if a.kind == ATYP_DOMAIN then
      if |a.domain| == 0 || |a.domain| > 255 then None
      else Some([ATYP_DOMAIN, |a.domain|] + a.domain + PutUint16(a.port))
    else if a.kind == ATYP_IPV6 then Some([ATYP_IPV6] + NetIP.To16(a.ip) + PutUint16(a.port))
    else None
  }

  function TargetBytes(cmd: byte, a: Address): Option<bytes> {
    match AddressBytes(a)
    case Some(b) => Some([cmd] + b)
    case None => None
  }

  // ---------- Reading ----------

  function Take(s: bytes, n: nat): Parse<bytes> {
    if |s| < n then Failed(ShortInput) else Got(s[..n], s[n..])
  }

  function ParsePort(s: bytes): Parse<uint16> {
    match Take(s, 2)
    case Failed(e) => Failed(e)
    case Got(b, rest) => Got(Uint16(b), rest)
  }

  function ParseIP(s: bytes, kind: byte, size: nat): Parse<Address> {
    match Take(s, size)
    case Failed(e) => Failed(e)
    case Got(ip, rest) =>
      match ParsePort(rest)
      case Failed(e) => Failed(e)
      case Got(port, rest) => Got(Address(kind, ip, [], port), rest)
  }

  /** The domain and port of an address; the address reader refuses an empty domain, the
      SOCKS reader does not. */
  function ParseDomain(s: bytes, allowEmpty: bool): Parse<Address> {
    match Take(s, 1)
    case Failed(e) => Failed(e)
    case Got(size, rest) =>
      if size[0] == 0 && !allowEmpty then Failed(EmptyDomain)
      else
        match Take(rest, size[0])
        case Failed(e) => Failed(e)
        case Got(domain, rest) =>
          match ParsePort(rest)
          case Failed(e) => Failed(e)
          case Got(port, rest) => Got(Address(ATYP_DOMAIN, [], domain, port), rest)
  }

  function ParseBody(kind: byte, s: bytes, allowEmpty: bool): Parse<Address> {
    if kind == ATYP_IPV4 then ParseIP(s, ATYP_IPV4, 4)
    else if kind == ATYP_DOMAIN then ParseDomain(s, allowEmpty)
    else if kind == ATYP_IPV6 then ParseIP(s, ATYP_IPV6, 16)
    else Failed(UnsupportedType)
  }

  function ParseAddress(s: bytes): Parse<Address> {
    match Take(s, 1)
    case Failed(e) => Failed(e)
    case Got(kind, rest) => ParseBody(kind[0], rest, false)
  }

  function ParseTarget(s: bytes): Parse<(byte, Address)> {
    match Take(s, 1)
    case Failed(e) => Failed(e)
    case Got(cmd, rest) =>
      match ParseAddress(rest)
      case Failed(e) => Failed(e)
      case Got(a, rest) => Got((cmd[0], a), rest)
  }

  /** socks5ReadRequest. */
  function ParseSocks(s: bytes): Parse<Address> {
    match Take(s, 4)
    case Failed(e) => Failed(e)
    case Got(head, rest) =>
      if head[0] != 5 then Failed(BadVersion)
      else if head[1] != 1 then Failed(BadCommand)
      else ParseBody(head[3], rest, true)
  }

  // ---------- Round trip ----------

  /** The addresses a caller may write: an IP that has the form its type says, which may be
      given in its other form too, or a domain of 1 to 255 bytes. */
  predicate WellFormed(a: Address) {
    || (a.kind == ATYP_IPV4 && NetIP.To4(a.ip) != [])
    || (a.kind == ATYP_IPV6 && NetIP.To16(a.ip) != [])
    || (a.kind == ATYP_DOMAIN && 0 < |a.domain| <= 255)
  }

  /** Two addresses name the same target: net.IP's own comparison decides between IPs. */
  predicate SameTarget(a: Address, b: Address) {
    && a.kind == b.kind && a.port == b.port
    && (if a.kind == ATYP_DOMAIN then a.domain == b.domain else NetIP.Equal(a.ip, b.ip))
  }

  /** The form in which the reader returns an address. */
  function AsRead(a: Address): Address {
    if a.kind == ATYP_DOMAIN then a.(ip := [])
    else a.(ip := if a.kind == ATYP_IPV4 then NetIP.To4(a.ip) else NetIP.To16(a.ip), domain := [])
  }

  /** With `rest` behind it, what was written for `a` is read as the same target, and
      exactly `rest` is left. */
  predicate ReadsBack(cmd: byte, a: Address, rest: bytes)
    requires TargetBytes(cmd, a).Some?
  {
    match ParseTarget(TargetBytes(cmd, a).value + rest)
    case Got(r, left) => r.0 == cmd && SameTarget(a, r.1) && left == rest
    case Failed(_) => false
  }

  lemma ParsePortOf(port: uint16, rest: bytes)
    ensures ParsePort(PutUint16(port) + rest) == Got(port, rest)
  {
  }

  lemma TakeFront(a: bytes, b: bytes)
    ensures Take(a + b, |a|) == Got(a, b)
  {
  }

  lemma ParseIPOf(kind: byte, ip: bytes, port: uint16, rest: bytes)
    ensures ParseIP(ip + PutUint16(port) + rest, kind, |ip|) == Got(Address(kind, ip, [], port), rest)
  {
    assert ip + PutUint16(port) + rest == ip + (PutUint16(port) + rest);
    TakeFront(ip, PutUint16(port) + rest);
    ParsePortOf(port, rest);
  }

  lemma ParseDomainOf(domain: bytes, port: uint16, rest: bytes, allowEmpty: bool)
    requires 0 < |domain| <= 255
    ensures var size: bytes := [|domain|];
            ParseDomain(size + domain + PutUint16(port) + rest, allowEmpty) == Got(Address(ATYP_DOMAIN, [], domain, port), rest)
  {
    var size: bytes := [|domain|];
    var tail := PutUint16(port) + rest;
    assert size + domain + PutUint16(port) + rest == size + (domain + tail);
    TakeFront(size, domain + tail);
    TakeFront(domain, tail);
    ParsePortOf(port, rest);
  }

  function WithCommand(cmd: byte, p: Parse<Address>): Parse<(byte, Address)> {
    match p
    case Failed(e) => Failed(e)
    case Got(a, rest) => Got((cmd, a), rest)
  }

  lemma ParseTargetOf(cmd: byte, kind: byte, body: bytes)
    ensures ParseTarget([cmd, kind] + body)
            == WithCommand(cmd, ParseBody(kind, body, false))
  {
  }

  lemma AsReadIsSame(a: Address)
    requires WellFormed(a)
    ensures SameTarget(a, AsRead(a)) && WellFormed(AsRead(a)) && AsRead(AsRead(a)) == AsRead(a)
  {
    if a.kind == ATYP_IPV4 {
      NetIP.To4IsEqual(a.ip);
    } else if a.kind == ATYP_IPV6 {
      NetIP.EqualIsSame16(a.ip, NetIP.To16(a.ip));
    }
  }

  /** Reading undoes writing up to the form of the IP, and leaves what follows alone. */
  lemma ReadUndoesWrite(cmd: byte, a: Address, rest: bytes)
    requires WellFormed(a)
    ensures TargetBytes(cmd, a).Some?
    ensures ParseTarget(TargetBytes(cmd, a).value + rest) == Got((cmd, AsRead(a)), rest)
    ensures ReadsBack(cmd, a, rest)
  {
    var b, port := AsRead(a), PutUint16(a.port);
    var size: bytes := if a.kind == ATYP_DOMAIN then [|a.domain|] else [];
    var body := (if a.kind == ATYP_DOMAIN then size + b.domain else b.ip) + port + rest;
    assert TargetBytes(cmd, a).value + rest == [cmd, a.kind] + body;
    ParseTargetOf(cmd, a.kind, body);
    if a.kind == ATYP_DOMAIN {
      ParseDomainOf(b.domain, a.port, rest, false);
    } else {
      ParseIPOf(a.kind, b.ip, a.port, rest);
    }
    AsReadIsSame(a);
  }

  /** The failing family: an IP that has no form of the size its type says is written as
      nothing at all, and the reader takes the port and the first bytes that follow for
      the address.  It fails only when too few follow. */
  lemma MalformedIsMisread(cmd: byte, a: Address, rest: bytes)
    requires a.kind == ATYP_IPV4 || a.kind == ATYP_IPV6
    requires !WellFormed(a)
    ensures TargetBytes(cmd, a) == Some([cmd, a.kind] + PutUint16(a.port))
    ensures var n := if a.kind == ATYP_IPV4 then 4 else 16;
            ParseTarget(TargetBytes(cmd, a).value + rest)
            == if |rest| < n then Failed(ShortInput)
               else Got((cmd, Address(a.kind, PutUint16(a.port) + rest[..n - 2], [], Uint16(rest[n - 2..n]))), rest[n..])
  {
    var n := if a.kind == ATYP_IPV4 then 4 else 16;
    var body := PutUint16(a.port) + rest;
    assert TargetBytes(cmd, a).value == [cmd, a.kind] + PutUint16(a.port);
    assert TargetBytes(cmd, a).value + rest == [cmd, a.kind] + body;
    ParseTargetOf(cmd, a.kind, body);
    if |rest| >= n {
      PortAsIP(a.kind, a.port, rest, n);
    } else {
      MalformedIsShort(body, a.kind, n);
    }
  }

  lemma PortAsIP(kind: byte, port: uint16, rest: bytes, n: nat)
    requires 2 <= n <= |rest|
    ensures ParseIP(PutUint16(port) + rest, kind, n)
            == Got(Address(kind, PutUint16(port) + rest[..n - 2], [], Uint16(rest[n - 2..n])), rest[n..])
  {
    var ip, port' := PutUint16(port) + rest[..n - 2], rest[n - 2..n];
    assert PutUint16(Uint16(port')) == port';
    assert PutUint16(port) + rest == ip + port' + rest[n..];
    ParseIPOf(kind, ip, Uint16(port'), rest[n..]);
  }

  lemma MalformedIsShort(s: bytes, kind: byte, size: nat)
    requires |s| < size + 2
    ensures ParseIP(s, kind, size) == Failed(ShortInput)
  {
  }

  /** Exactly the well-formed addresses survive the round trip, whatever follows. */
  lemma RoundTripIffWellFormed(cmd: byte, a: Address, rest: bytes)
    ensures WellFormed(a) <==> TargetBytes(cmd, a).Some? && ReadsBack(cmd, a, rest)
  {
    if WellFormed(a) {
      ReadUndoesWrite(cmd, a, rest);
    } else if a.kind == ATYP_IPV4 || a.kind == ATYP_IPV6 {
      MalformedIsMisread(cmd, a, rest);
    }
  }

  /** The bytes of a request say which target it is for and nothing more. */
  lemma SameTargetIffSameBytes(cmd: byte, a: Address, b: Address)
    requires WellFormed(a) && WellFormed(b)
    ensures SameTarget(a, b) <==> TargetBytes(cmd, a) == TargetBytes(cmd, b)
  {
    ReadUndoesWrite(cmd, a, []);
    ReadUndoesWrite(cmd, b, []);
    if a.kind == b.kind == ATYP_IPV4 {
      NetIP.EqualIsSame4(a.ip, b.ip);
    } else if a.kind == b.kind == ATYP_IPV6 {
      NetIP.EqualIsSame16(a.ip, b.ip);
    }
  }

  /** A target request is prefix-free: it cannot be mistaken for the start of another. */
  lemma PrefixFree(cmd: byte, a: Address, cmd': byte, b: Address, x: bytes, y: bytes)
    requires WellFormed(a) && WellFormed(b)
    requires TargetBytes(cmd, a).Some? && TargetBytes(cmd', b).Some?
    requires TargetBytes(cmd, a).value + x == TargetBytes(cmd', b).value + y
    ensures cmd == cmd' && SameTarget(a, b) && TargetBytes(cmd, a) == TargetBytes(cmd', b) && x == y
  {
    ReadUndoesWrite(cmd, a, x);
    ReadUndoesWrite(cmd', b, y);
    assert AsRead(a) == AsRead(b);
    if a.kind == ATYP_IPV4 {
      NetIP.EqualIsSame4(a.ip, b.ip);
    } else if a.kind == ATYP_IPV6 {
      NetIP.EqualIsSame16(a.ip, b.ip);
    }
    SameTargetIffSameBytes(cmd, a, b);
  }

  /** What a parsed IP address takes from the input, spelled out. */
  lemma ParsedIP(s: bytes, kind: byte, size: nat)
    requires ParseIP(s, kind, size).Got?
    ensures |s| >= size + 2 && ParseIP(s, kind, size).rest == s[size + 2..]
    ensures var a := ParseIP(s, kind, size).value;
            a.kind == kind && a.ip == s[..size] && a.domain == [] && PutUint16(a.port) == s[size..size + 2]
  {
  }

  /** What a parsed domain takes from the input, spelled out. */
  lemma ParsedDomain(s: bytes, allowEmpty: bool)
    requires ParseDomain(s, allowEmpty).Got?
    ensures |s| >= 3 && |s| >= s[0] as int + 3 && ParseDomain(s, allowEmpty).rest == s[s[0] as int + 3..]
    ensures var a, n := ParseDomain(s, allowEmpty).value, s[0] as int;
            a.kind == ATYP_DOMAIN && a.ip == [] && a.domain == s[1..n + 1] && PutUint16(a.port) == s[n + 1..n + 3]
  {
  }

  /** The address at position `at`, where its type byte has been taken off, by offsets.
      SOCKS and the tunnel use the same types. */
  function AddressAt(s: bytes, at: nat, kind: byte, allowEmpty: bool): Parse<Address>
    requires at <= |s|
  {
    if kind == 1 then IPAt(s, at, 1, 4)
    else if kind == 4 then IPAt(s, at, 4, 16)
    else if kind == 3 then
      if |s| == at then Failed(ShortInput)
      else if s[at] == 0 && !allowEmpty then Failed(EmptyDomain)
      else DomainAt(s, at, at + 1 + s[at] as int)
    else Failed(UnsupportedType)
  }

  function IPAt(s: bytes, at: nat, kind: byte, size: nat): Parse<Address>
    requires at <= |s|
  {
    var n := at + size;
    if |s| < n + 2 then Failed(ShortInput)
    else Got(Address(kind, s[at..n], [], s[n] as int * 256 + s[n + 1]), s[n + 2..])
  }

  function DomainAt(s: bytes, at: nat, n: nat): Parse<Address>
    requires at < n
  {
    if |s| < n + 2 then Failed(ShortInput)
    else Got(Address(3, [], s[at + 1..n], s[n] as int * 256 + s[n + 1]), s[n + 2..])
  }

  lemma BodyIsAddressAt(s: bytes, at: nat, kind: byte, allowEmpty: bool)
    requires at <= |s|
    ensures ParseBody(kind, s[at..], allowEmpty) == AddressAt(s, at, kind, allowEmpty)
  {
    if kind == ATYP_DOMAIN {
      DomainIsDomainAt(s, at, allowEmpty);
    } else if kind == ATYP_IPV4 {
      IPIsIPAt(s, at, kind, 4);
    } else if kind == ATYP_IPV6 {
      IPIsIPAt(s, at, kind, 16);
    }
  }

  /** Two bytes of port at position n. */
  lemma PortReadIff(s: bytes, n: nat)
    requires n <= |s|
    ensures ParsePort(s[n..]).Got? <==> |s| >= n + 2
    ensures |s| >= n + 2 ==> ParsePort(s[n..]) == Got(s[n] as int * 256 + s[n + 1], s[n + 2..])
  {
    if |s| >= n + 2 {
      SliceOfTail(s, n, 0, 2);
      assert s[n..][..2] == [s[n], s[n + 1]];
    }
  }

  lemma IPIsIPAt(s: bytes, at: nat, kind: byte, size: nat)
    requires at <= |s|
    ensures ParseIP(s[at..], kind, size) == IPAt(s, at, kind, size)
  {
    if |s| >= at + size {
      SliceOfTail(s, at, 0, size);
      PortReadIff(s, at + size);
    }
  }

  lemma DomainIsDomainAt(s: bytes, at: nat, allowEmpty: bool)
    requires at <= |s|
    ensures ParseDomain(s[at..], allowEmpty) == AddressAt(s, at, 3, allowEmpty)
  {
    if |s| >= at + 1 {
      SliceOfTail(s, at, 0, 1);
      assert s[at..][..1][0] == s[at];
      var n := at + 1 + s[at] as int;
      if |s| >= n {
        SliceOfTail(s, at + 1, 0, s[at]);
        PortReadIff(s, n);
      }
    }
  }

  /** What socks5ReadRequest makes of any bytes, and exactly which requests it accepts:
      version 5, command CONNECT, a known address type, and all the bytes that type calls
      for. */
  lemma SocksAcceptedIff(s: bytes)
    ensures ParseSocks(s) == if |s| < 4 then Failed(ShortInput)
                             else if s[0] != 5 then Failed(BadVersion)
                             else if s[1] != 1 then Failed(BadCommand)
                             else AddressAt(s, 4, s[3], true)
    ensures ParseSocks(s).Got? <==>
              && |s| >= 4 && s[0] == 5 && s[1] == 1
              && (|| (s[3] == 1 && |s| >= 10)
                  || (s[3] == 3 && |s| >= 5 && |s| >= 7 + s[4] as int)
                  || (s[3] == 4 && |s| >= 22))
  {
    if |s| >= 4 {
      assert s[..4][0] == s[0] && s[..4][1] == s[1] && s[..4][3] == s[3];
      BodyIsAddressAt(s, 4, s[3], true);
    }
  }

  /** The same for ReadTargetConnect: any command, a known address type, a domain that is
      not empty, and all the bytes the type calls for. */
  lemma TargetAcceptedIff(s: bytes)
    ensures ParseTarget(s) == if |s| < 2 then Failed(ShortInput) else WithCommand(s[0], AddressAt(s, 2, s[1], false))
    ensures ParseTarget(s).Got? <==>
              && |s| >= 2
              && (|| (s[1] == 1 && |s| >= 8)
                  || (s[1] == 3 && |s| >= 3 && s[2] != 0 && |s| >= 5 + s[2] as int)
                  || (s[1] == 4 && |s| >= 20))
  {
    if |s| >= 2 {
      FirstTwo(s);
      ParseTargetOf(s[0], s[1], s[2..]);
      BodyIsAddressAt(s, 2, s[1], false);
    }
  }

  lemma FirstTwo(s: bytes)
    requires |s| >= 2
    ensures [s[0], s[1]] + s[2..] == s
  {
  }

  /** From SOCKS to the tunnel: for a request the parser accepts, what WriteTargetConnect
      sends is the command byte followed by the request from its ATYP byte on; only a
      request with an empty domain is refused. */
  lemma SocksRelayed(s: bytes)
    requires ParseSocks(s).Got?
    ensures var a, n := ParseSocks(s).value, |s| - |ParseSocks(s).rest|;
            && 4 < n <= |s| && ParseSocks(s).rest == s[n..]
            && TargetBytes(CMD_CONNECT, a)
               == (if s[3] == ATYP_DOMAIN && s[4] == 0 then None else Some([CMD_CONNECT] + s[3..n]))
            && (TargetBytes(CMD_CONNECT, a).Some? ==> WellFormed(a) && AsRead(a) == a)
  {
    var body := s[4..];
    assert s[..4][3] == s[3];
    if s[3] == ATYP_DOMAIN {
      ParsedDomain(body, true);
      SocksDomain(s, body, ParseSocks(s).value);
    } else {
      var size := if s[3] == ATYP_IPV4 then 4 else 16;
      ParsedIP(body, s[3], size);
      SocksIP(s, body, ParseSocks(s).value, size);
    }
  }

  lemma SocksDomain(s: bytes, body: bytes, a: Address)
    requires |s| >= 7 && s[3] == ATYP_DOMAIN && body == s[4..] && |body| >= body[0] as int + 3
    requires a.kind == ATYP_DOMAIN && a.domain == body[1..body[0] as int + 1]
    requires PutUint16(a.port) == body[body[0] as int + 1..body[0] as int + 3]
    ensures AddressBytes(a) == if body[0] == 0 then None else Some(s[3..body[0] as int + 7])
    ensures body[body[0] as int + 3..] == s[body[0] as int + 7..]
  {
    var n := body[0] as int;
    var port := PutUint16(a.port);
    SliceOfTail(s, 4, 0, n + 3);
    assert |a.domain| == n && body[..n + 3] == [body[0]] + (a.domain + port);
    assert s[3..n + 7] == [s[3]] + s[4..n + 7];
    assert [ATYP_DOMAIN, body[0]] + a.domain + port == [ATYP_DOMAIN] + ([body[0]] + (a.domain + port));
  }

  lemma SocksIP(s: bytes, body: bytes, a: Address, size: nat)
    requires |s| >= size + 6 && body == s[4..]
    requires (s[3] == ATYP_IPV4 && size == 4) || (s[3] == ATYP_IPV6 && size == 16)
    requires a.kind == s[3] && a.ip == body[..size] && PutUint16(a.port) == body[size..size + 2]
    ensures AddressBytes(a) == Some(s[3..size + 6]) && body[size + 2..] == s[size + 6..]
  {
    SliceOfTail(s, 4, 0, size + 2);
    assert body[..size + 2] == body[..size] + body[size..size + 2];
    assert s[3..size + 6] == [s[3]] + s[4..size + 6];
    assert [s[3]] + body[..size + 2] == [s[3]] + body[..size] + body[size..size + 2];
    assert AddressBytes(a) == Some([s[3]] + a.ip + PutUint16(a.port));
  }

  // ---------- Over the padding stream ----------

  /** io.ReadFull on a padding connection. */
  method ReadExactly(c: Conn, n: nat) returns (data: bytes, ok: bool)
    requires c.Valid()
    modifies c
    ensures c.Valid()
    ensures match Take(old(c.Owed()), n)
            case Got(front, rest) => ok && data == front && c.Owed() == rest
            case Failed(_) => !ok && c.Owed() == []
  {
    data := [];
    while |data| < n
      invariant c.Valid() && |data| <= n
      invariant old(c.Owed()) == data + c.Owed()
      decreases n - |data|
    {
      var more, got, _ := c.Read(n - |data|);
      if !got {
        assert |old(c.Owed())| == |data|;
        return data, false;
      }
      assert old(c.Owed()) == data + (more + c.Owed());
      Associate(data, more, c.Owed());
      data := data + more;
    }
    TakeFront(data, c.Owed());
    return data, true;
  }

  method ReadPort(c: Conn) returns (port: Option<uint16>)
    requires c.Valid()
    modifies c
    ensures c.Valid()
    ensures match ParsePort(old(c.Owed()))
            case Got(p, rest) => port == Some(p) && c.Owed() == rest
            case Failed(_) => port == None
  {
    var data, ok := ReadExactly(c, 2);
    return if ok then Some(Uint16(data)) else None;
  }

  method ReadIP(c: Conn, kind: byte, size: nat) returns (a: Option<Address>)
    requires c.Valid()
    modifies c
    ensures c.Valid()
    ensures match ParseIP(old(c.Owed()), kind, size)
            case Got(v, rest) => a == Some(v) && c.Owed() == rest
            case Failed(_) => a == None
  {
    var ip, ok := ReadExactly(c, size);
    if !ok {
      return None;
    }
    var port := ReadPort(c);
    return if port.Some? then Some(Address(kind, ip, [], port.value)) else None;
  }

  method ReadDomain(c: Conn) returns (a: Option<Address>)
    requires c.Valid()
    modifies c
    ensures c.Valid()
    ensures match ParseDomain(old(c.Owed()), false)
            case Got(v, rest) => a == Some(v) && c.Owed() == rest
            case Failed(_) => a == None
  {
    var size, ok := ReadExactly(c, 1);
    if !ok || size[0] == 0 {
      return None;
    }
    var domain;
    domain, ok := ReadExactly(c, size[0]);
    if !ok {
      return None;
    }
    var port := ReadPort(c);
    return if port.Some? then Some(Address(ATYP_DOMAIN, [], domain, port.value)) else None;
  }

  /** ReadTargetConnect on a padding connection parses what the connection owes, whatever
      the frame boundaries, the padding and the read sizes, and leaves the rest owed. */
  method ReadTargetConnect(c: Conn) returns (r: Option<(byte, Address)>)
    requires c.Valid()
    modifies c
    ensures c.Valid()
    ensures match ParseTarget(old(c.Owed()))
            case Got(v, rest) => r == Some(v) && c.Owed() == rest
            case Failed(_) => r == None
  {
    var cmd, ok := ReadExactly(c, 1);
    if !ok {
      return None;
    }
    var kind;
    kind, ok := ReadExactly(c, 1);
    if !ok {
      return None;
    }
    var a: Option<Address> := None;
    if kind[0] == ATYP_IPV4 {
      a := ReadIP(c, ATYP_IPV4, 4);
    } else if kind[0] == ATYP_DOMAIN {
      a := ReadDomain(c);
    } else if kind[0] == ATYP_IPV6 {
      a := ReadIP(c, ATYP_IPV6, 16);
    }
    return if a.Some? then Some((cmd[0], a.value)) else None;
  }

  /** WriteTargetConnect on a padding connection: the command byte in one Write, the
      address in another.  A refused address leaves the command byte sent. */
  method WriteTargetConnect(c: Conn, cmd: byte, a: Address)
    returns (ok: bool, ghost first: seq<Frame>, ghost second: seq<Frame>)
    requires c.Valid()
    modifies c
    ensures c.Valid()
    ensures c.sink == Put(old(c.sink), Wire(first) + Wire(second))
    ensures ok ==> TargetBytes(cmd, a) == Some(Content(first) + Content(second))
    ensures ok <==> AddressBytes(a).Some? && |Wire(first)| + |Wire(second)| <= old(c.sink.room)
    ensures AddressBytes(a).None? ==> second == [] && (|Wire(first)| <= old(c.sink.room) ==> Content(first) == [cmd])
  {
    second := [];
    assert Wire(second) == [];
    var n;
    n, ok, first := c.Write([cmd]);
    assert Wire(first) + [] == Wire(first);
    var address := AddressBytes(a);
    if !ok {
      return;
    }
    if address.None? {
      return false, first, second;
    }
    n, ok, second := c.Write(address.value);
    PutInParts(old(c.sink), Wire(first), Wire(second));
  }

  /** The target chain end to end: whatever frames carry a well-formed request and
      what follows it, a fresh reader at the other end of the padding stream gets the same
      target and still has exactly the rest to come. */
  lemma TargetThroughPadding(cmd: byte, a: Address, rest: bytes, frames: seq<Frame>)
    requires WellFormed(a) && TargetBytes(cmd, a).Some? && Content(frames) == TargetBytes(cmd, a).value + rest
    ensures ParseTarget(Reader(0, 0, 0, []).Owed(Wire(frames))) == Got((cmd, AsRead(a)), rest) && SameTarget(a, AsRead(a))
  {
    WireDelivers(frames);
    var wire := Wire(frames);
    assert wire[0..] == wire && Reader(0, 0, 0, []).Owed(wire) == Content(frames);
    ReadUndoesWrite(cmd, a, rest);
    AsReadIsSame(a);
  }
}
