/** The parts of Go's net.IP that the modelled code relies on: an address is a byte
    slice of length 4 or 16, or nil or malformed (any other length). */
module NetIP {
  import opened Bytes

  const V4_IN_V6: bytes := [0, 0, 0, 0, 0, 0, 0, 0, 0, 0, 255, 255]

  function To4(ip: bytes): (r: bytes)
    ensures |r| == 4 || r == []
  {
    if |ip| == 4 then ip
    else if |ip| == 16 && ip[..12] == V4_IN_V6 then ip[12..]
    else []
  }

  function To16(ip: bytes): (r: bytes)
    ensures |r| == 16 || r == []
  {
    if |ip| == 4 then V4_IN_V6 + ip
    else if |ip| == 16 then ip
    else []
  }

  predicate Equal(a: bytes, b: bytes) {
    if |a| == |b| then a == b
    else if |a| == 4 && |b| == 16 then b[..12] == V4_IN_V6 && a == b[12..]
    else if |a| == 16 && |b| == 4 then a[..12] == V4_IN_V6 && a[12..] == b
    else false
  }

  /** Equal is equality of the 16-byte forms of well-formed addresses. */
  lemma EqualIsSame16(a: bytes, b: bytes)
    requires To16(a) != [] && To16(b) != []
    ensures Equal(a, b) <==> To16(a) == To16(b)
  {
  }

  /** The two forms of an IPv4 address: 4 bytes, or 16 that begin with ten zeros and two
      times 255. */
  lemma To4Iff(ip: bytes)
    ensures To4(ip) != [] <==>
              || |ip| == 4
              || (|ip| == 16 && (forall i :: 0 <= i < 10 ==> ip[i] == 0) && ip[10] == ip[11] == 255)
    ensures To4(ip) != [] ==> To4(ip) == ip[|ip| - 4..]
  {
    if |ip| == 16 {
      assert forall i :: 0 <= i < 12 ==> ip[..12][i] == ip[i];
      assert ip[..12] == V4_IN_V6 <==> forall i :: 0 <= i < 12 ==> ip[..12][i] == V4_IN_V6[i];
    }
    if |ip| == 4 {
      assert ip[0..] == ip;
    }
  }

  /** On IPv4 addresses, in either form, it is equality of the 4-byte forms too. */
  lemma EqualIsSame4(a: bytes, b: bytes)
    requires To4(a) != [] && To4(b) != []
    ensures Equal(a, b) <==> To4(a) == To4(b)
  {
    To4In16(a);
    To4In16(b);
    assert (V4_IN_V6 + To4(a))[12..] == To4(a) && (V4_IN_V6 + To4(b))[12..] == To4(b);
    EqualIsSame16(a, b);
  }

  lemma To4In16(ip: bytes)
    requires To4(ip) != []
    ensures To16(ip) == V4_IN_V6 + To4(ip)
  {
    if |ip| == 16 {
      assert ip == ip[..12] + ip[12..];
    }
  }

  lemma To4IsEqual(ip: bytes)
    requires To4(ip) != []
    ensures To4(To4(ip)) == To4(ip) && Equal(ip, To4(ip))
  {
    EqualIsSame4(ip, To4(ip));
  }
}
