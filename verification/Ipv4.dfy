/** The VPN's host addresses 10.8.h.l: stepping through them, printing them, counting them. */
module Ipv4 {
  import opened Wrappers
  import opened Text

  /** The number of addresses the allocator can hand out. */
  const CAPACITY := 65023

  /** True when a 16-bit host part ends neither in .0 nor in .255. */
  predicate HostOctetOk(v: int) {
    1 <= v % 256 <= 254
  }

  /** A host part that may be given to a peer: 10.8.0.1 is the server's own. */
  predicate Usable(v: int) {
    2 <= v <= 65534 && HostOctetOk(v)
  }

  /** The least value from `v` on that ends neither in .0 nor in .255. */
  function NextHost(v: int): (w: int)
    ensures v <= w <= v + 2 && HostOctetOk(w)
    ensures forall x :: v <= x < w ==> !HostOctetOk(x)
  {
    if v % 256 == 255 then v + 2 else if v % 256 == 0 then v + 1 else v
  }

  /** The 16-bit value held by the last two bytes of a 16-byte address. */
  function HostPart(ip: Bytes): int
    requires |ip| == 16
  {
    (ip[14] as int) * 256 + ip[15]
  }

  /** net.IPv4(10, 8, 0, 2): an IPv4 address in its 16-byte form. */
  const BASE: Bytes := [0, 0, 0, 0, 0, 0, 0, 0, 0, 0, 255, 255, 10, 8, 0, 2]

  /** Adds `offset` to the last two bytes of a copy of `base`, skipping .0 and .255.
      The measure is at most 2, so at most two further calls are made. */
  method IncrementIP(base: array<byte>, offset: int) returns (ip: array<byte>)
    requires base.Length == 16
    ensures fresh(ip) && ip.Length == 16
    ensures ip[..14] == base[..14]
    ensures HostPart(ip[..]) == NextHost(HostPart(base[..]) + offset) % 65536
    decreases NextHost(HostPart(base[..]) + offset) - (HostPart(base[..]) + offset)
  {
    ip := new byte[base.Length];
    forall i | 0 <= i < base.Length {
      ip[i] := base[i];
    }
    assert ip[..14] == base[..14];
    var val: int := (ip[14] as int) * 256 + ip[15];
    val := val + offset;
    ghost var v := HostPart(base[..]) + offset;
    assert val == v;
    TwoBytes(v);
    SkipOne(v);
    var high, low := val / 256 % 256, val % 256;
    ip[14] := high;
    ip[15] := low;
    assert ip[..14] == base[..14];
    assert HostPart(ip[..]) == v % 65536;
    if ip[15] == 0 || ip[15] == 255 {
      ip := IncrementIP(base, offset + 1);
    }
  }

  /** The two bytes written back are the value modulo 2^16. */
  lemma TwoBytes(v: int)
    ensures v / 256 % 256 * 256 + v % 256 == v % 65536
  {
    var q := v / 256;
    var low := q % 256 * 256 + v % 256;
    assert v == 65536 * (q / 256) + low && 0 <= low < 65536;
  }

  /** Skipping a bad last octet leads where the next value leads. */
  lemma SkipOne(v: int)
    ensures !HostOctetOk(v) <==> v % 256 == 0 || v % 256 == 255
    ensures HostOctetOk(v) ==> NextHost(v) == v
    ensures !HostOctetOk(v) ==> NextHost(v + 1) == NextHost(v)
  {
  }

  /** Dotted-decimal text of 10.8.h.l, where v = 256 * h + l. */
  function Dotted(v: nat): string
    requires v < 65536
  {
    Octets(10, 8, v / 256, v % 256)
  }

  function Octets(a: byte, b: byte, c: byte, d: byte): string {
    Join([Decimal(a), Decimal(b), Decimal(c), Decimal(d)], '.')
  }

  /** net.IP.String for an IPv4 address in 16-byte form. */
  function IPString(ip: Bytes): string
    requires |ip| == 16 && ip[..12] == BASE[..12]
  {
    Octets(ip[12], ip[13], ip[14], ip[15])
  }

  /** Any address that differs from the base in its host part only prints as that host part. */
  lemma HostText(ip: Bytes)
    requires |ip| == 16 && ip[..14] == BASE[..14]
    ensures ip[..12] == BASE[..12] && IPString(ip) == Dotted(HostPart(ip))
  {
    assert ip[..12] == ip[..14][..12];
    assert BASE[..12] == BASE[..14][..12];
    assert ip[12] == ip[..14][12] && ip[13] == ip[..14][13];
    assert HostPart(ip) / 256 == ip[14] && HostPart(ip) % 256 == ip[15];
  }

  lemma OctetsInjective(a: byte, b: byte, c: byte, d: byte, a': byte, b': byte, c': byte, d': byte)
    requires Octets(a, b, c, d) == Octets(a', b', c', d')
    ensures a == a' && b == b' && c == c' && d == d'
  {
    var p, q := [Decimal(a), Decimal(b), Decimal(c), Decimal(d)], [Decimal(a'), Decimal(b'), Decimal(c'), Decimal(d')];
    SplitJoin(p, '.');
    SplitJoin(q, '.');
    assert p[0] == q[0] && p[1] == q[1] && p[2] == q[2] && p[3] == q[3];
    DecimalValue(a); DecimalValue(b); DecimalValue(c); DecimalValue(d);
    DecimalValue(a'); DecimalValue(b'); DecimalValue(c'); DecimalValue(d');
  }

  /** An address prints as its last four bytes, in order, in decimal, with dots between them. */
  lemma AddressText(ip: Bytes, a: string, b: string, c: string, d: string)
    requires |ip| == 16 && ip[..12] == BASE[..12]
    requires Numeral(a, ip[12]) && Numeral(b, ip[13]) && Numeral(c, ip[14]) && Numeral(d, ip[15])
    ensures IPString(ip) == a + "." + b + "." + c + "." + d
  {
    NumeralIff(a, ip[12]);
    NumeralIff(b, ip[13]);
    NumeralIff(c, ip[14]);
    NumeralIff(d, ip[15]);
    hide Numeral, Decimal;
    JoinFour(a, b, c, d, '.');
  }

  lemma JoinFour(a: string, b: string, c: string, d: string, sep: char)
    ensures Join([a, b, c, d], sep) == a + [sep] + b + [sep] + c + [sep] + d
  {
    var three, two := [b, c, d], [c, d];
    assert [a, b, c, d][1..] == three && three[1..] == two && two[1..] == [d];
    assert Join(two, sep) == c + [sep] + d && Join(three, sep) == b + [sep] + Join(two, sep);
    assert a + [sep] + (b + [sep] + (c + [sep] + d)) == a + [sep] + b + [sep] + c + [sep] + d;
  }

  /** The text of 10.8.h.l, where v = 256 * h + l. */
  ghost predicate Reads(s: string, v: int) {
    exists h: string, l: string :: Numeral(h, v / 256) && Numeral(l, v % 256) && s == "10.8." + h + "." + l
  }

  lemma ReadsIff(s: string, v: nat)
    requires v < 65536
    ensures Reads(s, v) <==> s == Dotted(v)
  {
    var h, l := Decimal(v / 256), Decimal(v % 256);
    NumeralIff(h, v / 256);
    NumeralIff(l, v % 256);
    assert Dotted(v) == "10.8." + h + "." + l by {
      hide Numeral;
      TenAndEight();
      JoinFour("10", "8", h, l, '.');
      assert "10" + ['.'] + "8" + ['.'] + h + ['.'] + l == "10.8." + h + "." + l;
    }
    hide Dotted, Decimal;
    if Reads(s, v) {
      var h', l' :| Numeral(h', v / 256) && Numeral(l', v % 256) && s == "10.8." + h' + "." + l';
      NumeralIff(h', v / 256);
      NumeralIff(l', v % 256);
    }
  }

  lemma TenAndEight()
    ensures Decimal(10) == "10" && Decimal(8) == "8"
  {
    assert Decimal(1) == "1" && Decimal(10) == Decimal(1) + "0";
  }

  /** Two host parts print alike only when they are the same. */
  lemma DottedInjective(u: nat, v: nat)
    requires u < 65536 && v < 65536
    ensures Dotted(u) == Dotted(v) <==> u == v
  {
    if Dotted(u) == Dotted(v) {
      OctetsInjective(10, 8, u / 256, u % 256, 10, 8, v / 256, v % 256);
    }
  }

  /** The k-th usable host part, counted from 0: 10.8.((k+1)/254).(1+(k+1)%254). */
  function Nth(k: nat): nat {
    256 * ((k + 1) / 254) + 1 + (k + 1) % 254
  }

  lemma NthUsable(k: nat)
    ensures Usable(Nth(k)) <==> k < CAPACITY
    ensures Nth(k) < Nth(k + 1)
  {
  }

  lemma {:induction false} NthMonotone(j: nat, k: nat)
    requires j < k
    ensures Nth(j) < Nth(k)
    decreases k
  {
    NthUsable(k - 1);
    if j < k - 1 {
      NthMonotone(j, k - 1);
    }
  }

  /** Every usable host part is the k-th for exactly one k below the capacity. */
  lemma UsableIsNth(v: nat) returns (k: nat)
    requires Usable(v)
    ensures k < CAPACITY && Nth(k) == v
  {
    k := 254 * (v / 256) + v % 256 - 2;
    assert k + 1 == 254 * (v / 256) + (v % 256 - 1);
    assert (k + 1) / 254 == v / 256 && (k + 1) % 254 == v % 256 - 1;
  }

  /** The texts of the first `n` usable addresses. */
  ghost function FirstTexts(n: nat): set<string>
    requires n <= CAPACITY
  {
    set k: nat | k < n :: NthText(k)
  }

  ghost function NthText(k: nat): string
    requires k < CAPACITY
  {
    NthUsable(k);
    Dotted(Nth(k))
  }

  lemma NthTextIsNew(n: nat)
    requires n < CAPACITY
    ensures NthText(n) !in FirstTexts(n)
  {
    if NthText(n) in FirstTexts(n) {
      var k: nat :| k < n && NthText(n) == NthText(k);
      NthUsable(k);
      NthUsable(n);
      DottedInjective(Nth(k), Nth(n));
      NthMonotone(k, n);
      assert false;
    }
  }

  lemma {:induction false} FirstTextsSize(n: nat)
    requires n <= CAPACITY
    ensures |FirstTexts(n)| == n
  {
    hide NthText;
    if n > 0 {
      FirstTextsSize(n - 1);
      NthTextIsNew(n - 1);
      assert FirstTexts(n) == FirstTexts(n - 1) + {NthText(n - 1)};
    }
  }

  /** The least usable host part from `start` on whose text is not taken. */
  function LeastFree(taken: set<string>, start: nat): (r: Option<nat>)
    requires 2 <= start <= 65535
    ensures r.Some? ==> start <= r.value && Usable(r.value) && Dotted(r.value) !in taken
    ensures r.Some? ==> forall v :: start <= v < r.value && Usable(v) ==> Dotted(v) in taken
    ensures r.None? ==> forall v :: start <= v && Usable(v) ==> Dotted(v) in taken
    decreases 65535 - start
  {
    if start == 65535 then None
    else if Usable(start) && Dotted(start) !in taken then Some(start)
    else LeastFree(taken, start + 1)
  }

  /** The search can only fail on a set of at least 65,023 texts. */
  lemma {:induction false} FullSetIsLarge(taken: set<string>)
    ensures LeastFree(taken, 2).None? ==> |taken| >= CAPACITY
  {
    if LeastFree(taken, 2).None? {
      var n := CAPACITY;
      forall s | s in FirstTexts(n) ensures s in taken {
        var k: nat :| k < n && s == NthText(k);
        NthUsable(k);
      }
      FirstTextsSize(n);
      SubsetSize(FirstTexts(n), taken);
    }
  }

  /** Once exactly the first `n` addresses are taken, the n-th is the least free one. */
  lemma LeastFreeIsNth(n: nat)
    requires n < CAPACITY
    ensures LeastFree(FirstTexts(n), 2) == Some(Nth(n))
  {
    NthUsable(n);
    NthTextIsNew(n);
    var r := LeastFree(FirstTexts(n), 2);
    var j := UsableIsNth(r.value);
    assert j < n ==> Dotted(r.value) == NthText(j);
    if j > n {
      NthMonotone(n, j);
    }
  }

  /** Over loop indices 0 to 65,532 the stepping from 10.8.0.2 never wraps, never goes
      back, and reaches exactly the usable addresses. */
  lemma CandidatesAreUsable(i: nat, v: nat)
    requires i < 65533
    ensures Usable(NextHost(2 + i)) && NextHost(2 + i) <= NextHost(3 + i)
    ensures Usable(v) ==> v - 2 < 65533 && NextHost(2 + (v - 2)) == v
  {
    assert 65535 % 256 == 255 && 65534 % 256 == 254;
  }
}
