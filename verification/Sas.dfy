/** Admission handshake: the transcript both sides derive, and the short authentication
    string taken from its MAC. */
module Sas {
  import opened Basics

  // ----- the transcript -----

  /** The order of Rust byte arrays: lexicographic. */
  predicate LexLeq(a: seq<u8>, b: seq<u8>) {
    if a == [] then true
    else if b == [] then false
    else a[0] < b[0] || (a[0] == b[0] && LexLeq(a[1..], b[1..]))
  }

  lemma {:induction false} LexTotal(a: seq<u8>, b: seq<u8>)
    ensures LexLeq(a, b) || LexLeq(b, a)
    ensures LexLeq(a, b) && LexLeq(b, a) ==> a == b
  {
    if a != [] && b != [] {
      LexTotal(a[1..], b[1..]);
      assert a == [a[0]] + a[1..] && b == [b[0]] + b[1..];
    }
  }

  const DOMAIN: seq<u8> := [105, 112, 110, 45, 97, 100, 109, 105, 115, 115, 105, 111, 110, 45, 118, 49]

  function Sorted(a: seq<u8>, b: seq<u8>): seq<u8> {
    if LexLeq(a, b) then a + b else b + a
  }

  /** `domain || lower id || higher id || lower nonce || higher nonce`. */
  function Transcript(a: seq<u8>, b: seq<u8>, na: seq<u8>, nb: seq<u8>): seq<u8> {
    DOMAIN + Sorted(a, b) + Sorted(na, nb)
  }

  /** Sorted pairs of 32-byte values coincide exactly when the unordered pairs do. */
  lemma SortedPairs(a: seq<u8>, b: seq<u8>, c: seq<u8>, d: seq<u8>)
    requires |a| == |b| == |c| == |d| == 32
    ensures Sorted(a, b) == Sorted(c, d) <==> multiset{a, b} == multiset{c, d}
  {
    LexTotal(a, b);
    LexTotal(c, d);
    var x, y := if LexLeq(a, b) then (a, b) else (b, a), if LexLeq(c, d) then (c, d) else (d, c);
    assert (x.0 + x.1)[..32] == x.0 && (x.0 + x.1)[32..] == x.1;
    assert (y.0 + y.1)[..32] == y.0 && (y.0 + y.1)[32..] == y.1;
    if multiset{a, b} == multiset{c, d} {
      SamePair(a, b, c, d);
    }
  }

  lemma SamePair(a: seq<u8>, b: seq<u8>, c: seq<u8>, d: seq<u8>)
    requires multiset{a, b} == multiset{c, d}
    ensures (a == c && b == d) || (a == d && b == c)
  {
    assert a in multiset{c, d} && b in multiset{c, d};
    assert c in multiset{a, b} && d in multiset{a, b};
  }

  /** Both sides compute the same transcript, and no other pair of devices or nonces
      yields it. */
  lemma TranscriptIdentifiesThePairs(a: seq<u8>, b: seq<u8>, na: seq<u8>, nb: seq<u8>,
                                     c: seq<u8>, d: seq<u8>, nc: seq<u8>, nd: seq<u8>)
    requires |a| == |b| == |c| == |d| == 32 && |na| == |nb| == |nc| == |nd| == 32
    ensures Transcript(a, b, na, nb) == Transcript(c, d, nc, nd) <==>
            multiset{a, b} == multiset{c, d} && multiset{na, nb} == multiset{nc, nd}
  {
    var t, u := Transcript(a, b, na, nb), Transcript(c, d, nc, nd);
    var n := |DOMAIN|;
    assert t[n..n + 64] == Sorted(a, b) && t[n + 64..] == Sorted(na, nb);
    assert u[n..n + 64] == Sorted(c, d) && u[n + 64..] == Sorted(nc, nd);
    SortedPairs(a, b, c, d);
    SortedPairs(na, nb, nc, nd);
  }

  /** The domain is the protocol's name in ASCII. */
  lemma DomainIsText()
    ensures |DOMAIN| == 16 && forall i :: 0 <= i < 16 ==> DOMAIN[i] == "ipn-admission-v1"[i] as int
  {
  }

  predicate FirstDifference(a: seq<u8>, b: seq<u8>, i: nat) {
    i < |a| && i < |b| && a[..i] == b[..i] && a[i] < b[i]
  }

  /** The order: by the first byte that differs, a prefix before what it begins. */
  lemma {:induction false} LexIsFirstDifference(a: seq<u8>, b: seq<u8>)
    ensures LexLeq(a, b) <==> a <= b || exists i: nat :: FirstDifference(a, b, i)
  {
    if a != [] && b != [] {
      LexIsFirstDifference(a[1..], b[1..]);
      assert a == [a[0]] + a[1..] && b == [b[0]] + b[1..];
      if i: nat :| FirstDifference(a, b, i) {
        assert i > 0 ==> a[0] == a[..i][0] && b[0] == b[..i][0];
        assert i > 0 ==> a[1..][..i - 1] == a[..i][1..] && b[1..][..i - 1] == b[..i][1..];
        assert i > 0 ==> FirstDifference(a[1..], b[1..], i - 1);
        assert i == 0 || a[0] == b[0];
      }
      if a[0] < b[0] {
        assert FirstDifference(a, b, 0);
      } else if i: nat :| a[0] == b[0] && FirstDifference(a[1..], b[1..], i) {
        assert a[..i + 1] == [a[0]] + a[1..][..i] && b[..i + 1] == [b[0]] + b[1..][..i];
        assert FirstDifference(a, b, i + 1);
      }
    }
  }

  /** The transcript's layout: domain, the two ids in order, the two nonces in order. */
  lemma TranscriptLayout(a: seq<u8>, b: seq<u8>, na: seq<u8>, nb: seq<u8>)
    requires |a| == |b| == 32 && |na| == |nb| == 32
    ensures var t := Transcript(a, b, na, nb);
            && |t| == 16 + 128 && t[..16] == DOMAIN
            && multiset{t[16..48], t[48..80]} == multiset{a, b} && LexLeq(t[16..48], t[48..80])
            && multiset{t[80..112], t[112..144]} == multiset{na, nb} && LexLeq(t[80..112], t[112..144])
  {
    LexTotal(a, b);
    LexTotal(na, nb);
    DomainIsText();
    var ids, nonces := if LexLeq(a, b) then (a, b) else (b, a), if LexLeq(na, nb) then (na, nb) else (nb, na);
    Sliced(DOMAIN, ids.0, ids.1, nonces.0, nonces.1, Transcript(a, b, na, nb));
  }

  lemma Sliced(d: seq<u8>, x: seq<u8>, y: seq<u8>, u: seq<u8>, v: seq<u8>, t: seq<u8>)
    requires |d| == 16 && |x| == |y| == |u| == |v| == 32 && t == d + (x + y) + (u + v)
    ensures |t| == 144 && t[..16] == d && t[16..48] == x && t[48..80] == y && t[80..112] == u && t[112..144] == v
  {
  }

  // ----- the short authentication string -----

  /** The bits of a byte, most significant first. */
  function ByteBits(b: u8): (bits: seq<nat>)
    ensures |bits| == 8 && forall j :: 0 <= j < 8 ==> bits[j] <= 1
  {
    [b / 128 % 2, b / 64 % 2, b / 32 % 2, b / 16 % 2, b / 8 % 2, b / 4 % 2, b / 2 % 2, b % 2]
  }

  /** The bits of a byte string, first byte first. */
  function Bits(bytes: seq<u8>): (bits: seq<nat>)
    ensures |bits| == 8 * |bytes| && forall j :: 0 <= j < |bits| ==> bits[j] <= 1
  {
    if bytes == [] then [] else Bits(bytes[..|bytes| - 1]) + ByteBits(bytes[|bytes| - 1])
  }

  /** Bits read as a big-endian number. */
  function Value(bits: seq<nat>): nat {
    if bits == [] then 0 else 2 * Value(bits[..|bits| - 1]) + bits[|bits| - 1]
  }

  function GroupValue(bits: seq<nat>, k: nat): nat
    requires 6 * k + 6 <= |bits|
  {
    Value(bits[6 * k..6 * k + 6])
  }

  /** The `k`-th group of six bits of a MAC, as a number. */
  function SixBits(mac: seq<u8>, k: nat): nat
    requires 6 * k + 6 <= 8 * |mac|
  {
    GroupValue(Bits(mac), k)
  }

  lemma Pow2Values()
    ensures Pow2(0) == 1 && Pow2(2) == 4 && Pow2(4) == 16 && Pow2(6) == 64 && Pow2(8) == 256
  {
    assert Pow2(2) == 2 * Pow2(1);
    assert Pow2(4) == 2 * Pow2(3) && Pow2(3) == 2 * Pow2(2);
    assert Pow2(6) == 2 * Pow2(5) && Pow2(5) == 2 * Pow2(4);
    assert Pow2(8) == 2 * Pow2(7) && Pow2(7) == 2 * Pow2(6);
  }

  lemma {:induction false} ValueSplit(x: seq<nat>, y: seq<nat>)
    ensures Value(x + y) == Value(x) * Pow2(|y|) + Value(y)
  {
    if y == [] {
      assert x + y == x;
    } else {
      var m := |y| - 1;
      ValueSplit(x, y[..m]);
      assert (x + y)[..|x + y| - 1] == x + y[..m];
      assert Value(x) * (2 * Pow2(m)) == 2 * (Value(x) * Pow2(m));
    }
  }

  lemma {:induction false} ValueBound(x: seq<nat>)
    requires forall j :: 0 <= j < |x| ==> x[j] <= 1
    ensures Value(x) < Pow2(|x|)
  {
    if x != [] {
      ValueBound(x[..|x| - 1]);
    }
  }

  lemma ValueSnoc(x: seq<nat>, b: nat)
    ensures Value(x + [b]) == 2 * Value(x) + b
  {
    assert (x + [b])[..|x|] == x;
  }

  /** A byte is the value of its bits. */
  lemma ByteValue(b: u8)
    ensures Value(ByteBits(b)) == b
  {
    var x := ByteBits(b);
    ValueSnoc([], x[0]);
    ValueSnoc(x[..1], x[1]);
    ValueSnoc(x[..2], x[2]);
    ValueSnoc(x[..3], x[3]);
    ValueSnoc(x[..4], x[4]);
    ValueSnoc(x[..5], x[5]);
    ValueSnoc(x[..6], x[6]);
    ValueSnoc(x[..7], x[7]);
    assert [] + [x[0]] == x[..1] && x[..1] + [x[1]] == x[..2] && x[..2] + [x[2]] == x[..3];
    assert x[..3] + [x[3]] == x[..4] && x[..4] + [x[4]] == x[..5] && x[..5] + [x[5]] == x[..6];
    assert x[..6] + [x[6]] == x[..7] && x[..7] + [x[7]] == x;
    Halves(b);
    LowerHalves(b);
  }

  lemma Halves(b: u8)
    ensures 2 * (b / 128) + b / 64 % 2 == b / 64 && 2 * (b / 64) + b / 32 % 2 == b / 32
    ensures 2 * (b / 32) + b / 16 % 2 == b / 16 && b / 128 % 2 == b / 128
  {
  }

  lemma LowerHalves(b: u8)
    ensures 2 * (b / 16) + b / 8 % 2 == b / 8 && 2 * (b / 8) + b / 4 % 2 == b / 4
    ensures 2 * (b / 4) + b / 2 % 2 == b / 2 && 2 * (b / 2) + b % 2 == b
  {
  }

  /** The bits of a prefix are a prefix of the bits. */
  lemma {:induction false} BitsOfPrefix(bytes: seq<u8>, n: nat)
    requires n <= |bytes|
    ensures Bits(bytes[..n]) == Bits(bytes)[..8 * n]
    decreases |bytes|
  {
    if n < |bytes| {
      var m := |bytes| - 1;
      BitsOfPrefix(bytes[..m], n);
      assert bytes[..m][..n] == bytes[..n];
    } else {
      assert bytes[..n] == bytes;
    }
  }

  lemma ShiftIn(v: nat, acc: u32, b: u8)
    requires acc == v % 0x1_0000_0000
    ensures acc % 0x100_0000 * 0x100 + b == (v * 0x100 + b) % 0x1_0000_0000
  {
    var t, u, w := v / 0x1_0000_0000, acc / 0x100_0000, acc % 0x100_0000;
    assert v == 0x1_0000_0000 * t + acc && acc == 0x100_0000 * u + w;
    var x := v * 0x100 + b;
    assert x == 0x1_0000_0000 * (0x100 * t + u) + (w * 0x100 + b);
    SameQuotient(0x1_0000_0000, x / 0x1_0000_0000, x % 0x1_0000_0000, 0x100 * t + u, w * 0x100 + b);
  }

  /** The first `n` bytes read as a big-endian number. */
  function BigEndian(bytes: seq<u8>, n: nat): nat
    requires n <= |bytes|
  {
    if n == 0 then 0 else BigEndian(bytes, n - 1) * 0x100 + bytes[n - 1]
  }

  lemma {:induction false} BigEndianIsBits(bytes: seq<u8>, n: nat)
    requires n <= |bytes|
    ensures BigEndian(bytes, n) == Value(Bits(bytes)[..8 * n])
  {
    if n > 0 {
      BigEndianIsBits(bytes, n - 1);
      BitsOfPrefix(bytes, n - 1);
      BitsOfPrefix(bytes, n);
      assert bytes[..n][..n - 1] == bytes[..n - 1];
      ValueSplit(Bits(bytes[..n - 1]), ByteBits(bytes[n - 1]));
      ByteValue(bytes[n - 1]);
      Pow2Values();
    }
  }

  lemma Distributes(d: int, q: int, p: int)
    ensures (d + q + 1) * p == d * p + q * p + p
  {
  }

  lemma MultiplesApart(p: nat, a: int, q: int)
    requires a > q
    ensures a * p >= q * p + p
  {
    Distributes(a - q - 1, q, p);
    NotNegative(a - q - 1, p);
  }

  lemma NotNegative(d: nat, p: nat)
    ensures d * p >= 0
  {
  }

  /** Quotient and remainder are unique. */
  lemma SameQuotient(p: nat, a: int, low: nat, q: int, r: nat)
    requires low < p && r < p && a * p + low == q * p + r
    ensures a == q && low == r
  {
    if a > q {
      MultiplesApart(p, a, q);
    } else if q > a {
      MultiplesApart(p, q, a);
    }
  }

  /** With the lowest bits cut off by `p`, the six bits above them survive truncation to
      `p * 64 * m` (here 2^32). */
  lemma Unharmed(top: nat, six: nat, low: nat, p: nat, m: nat, acc: nat)
    requires p > 0 && m > 0 && six < 64 && low < p
    requires p * (64 * m) > 0 && acc == ((top * 64 + six) * p + low) % (p * (64 * m))
    ensures acc / p % 64 == six
  {
    var v := (top * 64 + six) * p + low;
    var modulus := p * (64 * m);
    var t := v / modulus;
    var q, r := acc / p, acc % p;
    assert v == modulus * t + acc;
    assert acc == q * p + r;
    assert modulus * t == (64 * (m * t)) * p;
    assert (64 * (m * t) + q) * p == (64 * (m * t)) * p + q * p;
    SameQuotient(p, top * 64 + six, low, 64 * (m * t) + q, r);
    SameQuotient(64, top, six, m * t + q / 64, q % 64);
  }

  /** `x >> n` on unsigned integers. */
  function Shr(x: nat, n: nat): nat {
    if n == 0 then x else Shr(x, n - 1) / 2
  }

  lemma ShrIs(x: nat, n: nat)
    requires n in {0, 2, 4, 6}
    ensures Shr(x, n) == x / Pow2(n)
  {
    Pow2Values();
    assert Shr(x, 2) == Shr(x, 1) / 2;
    assert Shr(x, 4) == Shr(x, 3) / 2 && Shr(x, 3) == Shr(x, 2) / 2;
    assert Shr(x, 6) == Shr(x, 5) / 2 && Shr(x, 5) == Shr(x, 4) / 2;
  }

  lemma ValueOfThree(x: seq<nat>, y: seq<nat>, z: seq<nat>)
    ensures Value(x + y + z) == (Value(x) * Pow2(|y|) + Value(y)) * Pow2(|z|) + Value(z)
  {
    ValueSplit(x + y, z);
    ValueSplit(x, y);
  }

  /** A bit string cut into a front, six bits, and `n` more. */
  lemma CutBits(bits: seq<nat>, front: nat, n: nat) returns (top: nat, low: nat)
    requires |bits| == front + 6 + n
    requires forall j :: 0 <= j < |bits| ==> bits[j] <= 1
    ensures Value(bits) == (top * 64 + Value(bits[front..front + 6])) * Pow2(n) + low
    ensures low < Pow2(n) && Value(bits[front..front + 6]) < 64
  {
    var before, six, after := bits[..front], bits[front..front + 6], bits[front + 6..];
    assert bits == before + six + after;
    ValueOfThree(before, six, after);
    ValueBound(six);
    ValueBound(after);
    Pow2Values();
    top, low := Value(before), Value(after);
  }

  lemma GroupWithin(bits: seq<nat>, front: nat, end: nat)
    requires front + 6 <= end <= |bits|
    ensures bits[..end][front..front + 6] == bits[front..front + 6]
  {
  }

  /** The bytes read so far are the bits before group `k`, the group, and `nbits` more. */
  lemma SplitBits(mac: seq<u8>, k: nat, nbits: nat, idx: nat) returns (top: nat, low: nat)
    requires idx <= |mac| && 8 * idx == 6 * k + 6 + nbits
    ensures BigEndian(mac, idx) == (top * 64 + SixBits(mac, k)) * Pow2(nbits) + low
    ensures low < Pow2(nbits) && SixBits(mac, k) < 64
  {
    BigEndianIsBits(mac, idx);
    var bits := Bits(mac);
    GroupWithin(bits, 6 * k, 8 * idx);
    top, low := CutBits(bits[..8 * idx], 6 * k, nbits);
  }

  /** The six bits wanted are still in the accumulator, whatever the shift dropped. */
  lemma Extract(mac: seq<u8>, k: nat, nbits: nat, idx: nat, acc: u32)
    requires idx <= |mac| && 8 * idx == 6 * k + 6 + nbits && nbits in {0, 2, 4, 6}
    requires acc == BigEndian(mac, idx) % 0x1_0000_0000
    ensures Shr(acc, nbits) % 64 == SixBits(mac, k) < 64
  {
    var top, low := SplitBits(mac, k, nbits, idx);
    TruncatedAt(nbits);
    Unharmed(top, SixBits(mac, k), low, Pow2(nbits), Pow2(26 - nbits), acc);
    ShrIs(acc, nbits);
  }

  lemma TruncatedAt(nbits: nat)
    requires nbits in {0, 2, 4, 6}
    ensures Pow2(nbits) * (64 * Pow2(26 - nbits)) == 0x1_0000_0000
  {
    Pow2Sum(nbits, 26 - nbits);
    Pow2Sum(13, 13);
    Pow2Sum(6, 7);
    Pow2Values();
    assert Pow2(7) == 2 * Pow2(6);
    assert Pow2(nbits) * (64 * Pow2(26 - nbits)) == 64 * (Pow2(nbits) * Pow2(26 - nbits));
  }

  lemma {:induction false} Pow2Sum(a: nat, b: nat)
    ensures Pow2(a + b) == Pow2(a) * Pow2(b)
  {
    if a > 0 {
      Pow2Sum(a - 1, b);
      assert 2 * (Pow2(a - 1) * Pow2(b)) == 2 * Pow2(a - 1) * Pow2(b);
    }
  }

  const SAS_LENGTH := 7

  /** The emoji indices of `sas_emojis`: six bits at a time, with the source's u32
      accumulator, whose shift drops high bits. The first six bytes of a MAC are enough. */
  method SasIndices(mac: seq<u8>) returns (out: seq<nat>)
    requires |mac| >= 6
    ensures |out| == SAS_LENGTH
    ensures forall k :: 0 <= k < SAS_LENGTH ==> out[k] == SixBits(mac, k) < 64
  {
    out := [];
    var acc: u32 := 0;
    var nbits := 0;
    var idx := 0;
    while |out| < SAS_LENGTH
      invariant |out| <= SAS_LENGTH && 0 <= nbits <= 6
      invariant 8 * idx == 6 * |out| + nbits
      invariant acc == BigEndian(mac, idx) % 0x1_0000_0000
      invariant forall k :: 0 <= k < |out| ==> out[k] == SixBits(mac, k) < 64
      decreases SAS_LENGTH - |out|
    {
      if nbits < 6 {
        ShiftIn(BigEndian(mac, idx), acc, mac[idx]);
        acc := acc % 0x100_0000 * 0x100 + mac[idx];
        idx := idx + 1;
        nbits := nbits + 8;
      }
      nbits := nbits - 6;
      Extract(mac, |out|, nbits, idx, acc);
      out := out + [Shr(acc, nbits) % 64];
    }
  }

  predicate SameRange(x: seq<nat>, y: seq<nat>, lo: nat, hi: nat)
    requires lo <= hi <= |x| && |x| == |y|
  {
    forall j :: lo <= j < hi ==> x[j] == y[j]
  }

  lemma GroupDetermines(x: seq<nat>, y: seq<nat>, lo: nat)
    requires |x| == |y| && lo + 6 <= |x|
    requires forall j :: 0 <= j < |x| ==> x[j] <= 1 && y[j] <= 1
    ensures Value(x[lo..lo + 6]) == Value(y[lo..lo + 6]) <==> SameRange(x, y, lo, lo + 6)
  {
    var a, b := x[lo..lo + 6], y[lo..lo + 6];
    assert forall j :: lo <= j < lo + 6 ==> x[j] == a[j - lo] && y[j] == b[j - lo];
    if Value(a) == Value(b) {
      ValueDetermines(a, b);
    }
    if SameRange(x, y, lo, lo + 6) {
      assert a == b;
    }
  }

  predicate SameGroup(x: seq<nat>, y: seq<nat>, k: nat)
    requires 6 * k + 6 <= |x| == |y|
  {
    SameRange(x, y, 6 * k, 6 * k + 6)
  }

  /** Seven groups of six positions are the first 42 positions. */
  lemma GroupsAreThePrefix(x: seq<nat>, y: seq<nat>)
    requires |x| == |y| >= 42
    ensures (forall k :: 0 <= k < SAS_LENGTH ==> SameGroup(x, y, k)) <==> SameRange(x, y, 0, 42)
  {
    if forall k :: 0 <= k < SAS_LENGTH ==> SameGroup(x, y, k) {
      forall j | 0 <= j < 42
        ensures x[j] == y[j]
      {
        assert SameGroup(x, y, j / 6);
      }
    }
  }

  lemma SameGroupIsSameValue(x: seq<nat>, y: seq<nat>, k: nat)
    requires |x| == |y| && 6 * k + 6 <= |x|
    requires forall j :: 0 <= j < |x| ==> x[j] <= 1 && y[j] <= 1
    ensures GroupValue(x, k) == GroupValue(y, k) <==> SameGroup(x, y, k)
  {
    GroupDetermines(x, y, 6 * k);
  }

  lemma GroupValuesAreThePrefix(x: seq<nat>, y: seq<nat>)
    requires |x| == |y| >= 42 && forall j :: 0 <= j < |x| ==> x[j] <= 1 && y[j] <= 1
    ensures (forall k :: 0 <= k < SAS_LENGTH ==> GroupValue(x, k) == GroupValue(y, k)) <==> SameRange(x, y, 0, 42)
  {
    forall k | 0 <= k < SAS_LENGTH
      ensures GroupValue(x, k) == GroupValue(y, k) <==> SameGroup(x, y, k)
    {
      SameGroupIsSameValue(x, y, k);
    }
    GroupsAreThePrefix(x, y);
  }

  /** Two short authentication strings agree exactly when the first 42 bits of the MACs
      do. */
  lemma SasComparesFirstBits(mac: seq<u8>, mac': seq<u8>)
    requires |mac| == |mac'| == 32
    ensures (forall k :: 0 <= k < SAS_LENGTH ==> SixBits(mac, k) == SixBits(mac', k)) <==>
            SameRange(Bits(mac), Bits(mac'), 0, 42)
  {
    GroupValuesAreThePrefix(Bits(mac), Bits(mac'));
    assert forall k :: 0 <= k < SAS_LENGTH ==> SixBits(mac, k) == GroupValue(Bits(mac), k);
    assert forall k :: 0 <= k < SAS_LENGTH ==> SixBits(mac', k) == GroupValue(Bits(mac'), k);
  }

  lemma {:induction false} ValueDetermines(x: seq<nat>, y: seq<nat>)
    requires |x| == |y| && Value(x) == Value(y)
    requires forall j :: 0 <= j < |x| ==> x[j] <= 1 && y[j] <= 1
    ensures x == y
  {
    if x != [] {
      var n := |x| - 1;
      ValueDetermines(x[..n], y[..n]);
      assert x == x[..n] + [x[n]] && y == y[..n] + [y[n]];
    }
  }
}
