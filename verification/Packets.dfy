/** TCP MSS clamping on raw IPv4 packets: the in-place option walk and the Internet
    checksum over pseudo-header and segment (RFC 9293 sections 3.1, 3.2 and 3.7.1,
    RFC 1071 section 1). */
module Packets {
  import opened Basics

  /** Length in bytes of the IPv4 header, from its IHL field. */
  function HeaderLen(p: seq<u8>): nat
    requires p != []
  {
    p[0] % 16 * 4
  }

  predicate IsIpv4(p: seq<u8>) {
    |p| >= 20 && p[0] / 16 == 4
  }

  predicate HasFlag(flags: u8, bit: nat)
    requires bit > 0
  {
    flags / bit % 2 == 1
  }

  const SYN := 0x02
  const ACK := 0x10

  // ----- the Internet checksum -----

  /** The sum of the big-endian 16-bit words from `i` on; a last odd byte is the high
      half of a word. */
  ghost function Words(p: seq<u8>, i: nat): nat
    decreases |p| - i
  {
    if i + 1 < |p| then Be16(p[i], p[i + 1]) + Words(p, i + 2)
    else if i < |p| then Be16(p[i], 0)
    else 0
  }

  /** The words that the TCP checksum covers: source and destination address, protocol
      number, segment length, and the segment at `tcp`. */
  ghost function Covered(p: seq<u8>, tcp: nat): nat
    requires 20 <= tcp <= |p|
  {
    Be16(p[12], p[13]) + Be16(p[14], p[15]) + Be16(p[16], p[17]) + Be16(p[18], p[19])
    + 6 + (|p| - tcp) + Words(p, tcp)
  }

  /** One's-complement sum: carries are added back in. */
  ghost function Fold(n: nat): nat {
    if n < 0x1_0000 then n else Fold(n % 0x1_0000 + n / 0x1_0000)
  }

  /** A receiver accepts the segment: its one's-complement sum is all ones. */
  ghost predicate ChecksumOk(p: seq<u8>, tcp: nat)
    requires 20 <= tcp <= |p|
  {
    Fold(Covered(p, tcp)) == 0xffff
  }

  /** Folding keeps the residue modulo 0xffff and never turns a nonzero sum into zero. */
  lemma {:induction false} FoldResidue(n: nat) returns (k: nat)
    ensures n == Fold(n) + 0xffff * k && Fold(n) <= 0xffff && (n > 0 ==> Fold(n) > 0)
  {
    if n < 0x1_0000 {
      k := 0;
    } else {
      var j := FoldResidue(n % 0x1_0000 + n / 0x1_0000);
      k := j + n / 0x1_0000;
    }
  }

  /** Adding the complement of the folded sum makes the sum fold to all ones. */
  lemma ComplementCompletes(n: nat)
    requires n > 0
    ensures Fold(n) <= 0xffff && Fold(n + (0xffff - Fold(n))) == 0xffff
  {
    var k := FoldResidue(n);
    var k' := FoldResidue(n + (0xffff - Fold(n)));
    assert Fold(n + (0xffff - Fold(n))) == 0xffff * (k + 1 - k');
  }

  /** Replacing one aligned word changes the sum by the difference. */
  lemma {:induction false} WordsWith(p: seq<u8>, q: seq<u8>, i: nat, at: nat)
    requires |p| == |q| && i <= at && at + 1 < |p| && (at - i) % 2 == 0
    requires forall k :: 0 <= k < |p| && k != at && k != at + 1 ==> p[k] == q[k]
    ensures Words(q, i) + Be16(p[at], p[at + 1]) == Words(p, i) + Be16(q[at], q[at + 1])
    decreases at - i
  {
    if i == at {
      SameWords(p, q, at + 2);
    } else {
      WordsWith(p, q, i + 2, at);
    }
  }

  lemma {:induction false} SameWords(p: seq<u8>, q: seq<u8>, i: nat)
    requires |p| == |q| && forall k :: i <= k < |p| ==> p[k] == q[k]
    ensures Words(p, i) == Words(q, i)
    decreases |p| - i
  {
    if i + 1 < |p| {
      SameWords(p, q, i + 2);
    }
  }

  /** The summing half of `recompute_tcp_checksum`, with its u32 accumulator. On
      packets of at most 65535 bytes the accumulator never wraps. */
  method SumCovered(pkt: array<u8>, ihl: nat) returns (sum: u32)
    requires 20 <= ihl && ihl + 20 <= pkt.Length
    ensures pkt.Length <= 65535 ==> sum == Covered(pkt[..], ihl)
  {
    ghost var p := pkt[..];
    sum := Add32(Be16(pkt[12], pkt[13]), Be16(pkt[14], pkt[15]));
    sum := Add32(sum, Be16(pkt[16], pkt[17]));
    sum := Add32(sum, Be16(pkt[18], pkt[19]));
    sum := Add32(sum, 6);
    sum := Add32(sum, Trunc32(pkt.Length - ihl));
    var i := ihl;
    while i + 1 < pkt.Length
      invariant ihl <= i <= pkt.Length
      invariant pkt.Length <= 65535 ==> sum + Words(p, i) == Covered(p, ihl)
      invariant pkt.Length <= 65535 ==> 2 * sum <= 2 * (5 * 0xffff + 6) + (i - ihl) * 0xffff
    {
      sum := Add32(sum, Be16(pkt[i], pkt[i + 1]));
      i := i + 2;
    }
    if i < pkt.Length {
      sum := Add32(sum, Be16(pkt[i], 0));
    }
  }

  /** The carry-folding loop. */
  method FoldCarries(total: u32) returns (sum: u16)
    ensures sum == Fold(total)
  {
    var acc: u32 := total;
    while acc / 0x1_0000 != 0
      invariant Fold(acc) == Fold(total)
      decreases acc
    {
      acc := acc % 0x1_0000 + acc / 0x1_0000;
    }
    sum := acc;
  }

  /** Filling the zeroed checksum field with the complement makes the checksum valid. */
  lemma FilledIn(zeroed: seq<u8>, filled: seq<u8>, tcp: nat, check: u16)
    requires 20 <= tcp && tcp + 20 <= |zeroed| == |filled|
    requires zeroed[tcp + 16] == 0 && zeroed[tcp + 17] == 0
    requires Be16(filled[tcp + 16], filled[tcp + 17]) == check
    requires forall k :: 0 <= k < |zeroed| && k != tcp + 16 && k != tcp + 17 ==> filled[k] == zeroed[k]
    requires check == 0xffff - Fold(Covered(zeroed, tcp))
    ensures ChecksumOk(filled, tcp)
  {
    WordsWith(zeroed, filled, tcp, tcp + 16);
    assert Covered(filled, tcp) == Covered(zeroed, tcp) + check;
    ComplementCompletes(Covered(zeroed, tcp));
  }

  /** `recompute_tcp_checksum`. */
  method RecomputeTcpChecksum(pkt: array<u8>, ihl: nat)
    requires 20 <= ihl && ihl + 20 <= pkt.Length
    modifies pkt
    ensures forall k :: 0 <= k < pkt.Length && k != ihl + 16 && k != ihl + 17 ==> pkt[k] == old(pkt[k])
    ensures pkt.Length <= 65535 ==> ChecksumOk(pkt[..], ihl)
  {
    pkt[ihl + 16] := 0;
    pkt[ihl + 17] := 0;
    ghost var zeroed := pkt[..];
    var total := SumCovered(pkt, ihl);
    var sum := FoldCarries(total);
    var check: u16 := 0xffff - sum;
    pkt[ihl + 16] := check / 0x100;
    pkt[ihl + 17] := check % 0x100;
    if pkt.Length <= 65535 {
      FilledIn(zeroed, pkt[..], ihl, check);
    }
  }

  // ----- the option walk -----

  /** Where the options of an IPv4 TCP SYN start, and where they end. */
  function DataOffset(p: seq<u8>): nat
    requires p != [] && HeaderLen(p) + 12 < |p|
  {
    p[HeaderLen(p) + 12] / 16 * 4
  }

  /** An IPv4 TCP SYN whose header lengths fit the packet. */
  predicate IsSyn(p: seq<u8>) {
    && IsIpv4(p)
    && 20 <= HeaderLen(p)
    && HeaderLen(p) + 20 <= |p|
    && p[9] == 6
    && 20 <= DataOffset(p)
    && HeaderLen(p) + DataOffset(p) <= |p|
    && HasFlag(p[HeaderLen(p) + 13], SYN)
  }

  /** The offsets of the MSS options met when walking the options from `i` to `end`:
      kind 0 ends the list, kind 1 is a single byte, anything else has a length, and a
      length that makes no sense ends the walk. */
  function MssOptions(p: seq<u8>, i: nat, end: nat): set<nat>
    requires end <= |p|
    decreases end - i
  {
    if i + 1 >= end || p[i] == 0 then {}
    else if p[i] == 1 then MssOptions(p, i + 1, end)
    else if p[i + 1] < 2 || i + p[i + 1] > end then {}
    else (if p[i] == 2 && p[i + 1] == 4 then {i} else {}) + MssOptions(p, i + p[i + 1], end)
  }

  /** The MSS options of a packet. */
  function Reached(p: seq<u8>): set<nat> {
    if IsSyn(p) then MssOptions(p, HeaderLen(p) + 20, HeaderLen(p) + DataOffset(p)) else {}
  }

  lemma {:induction false} OptionsInside(p: seq<u8>, i: nat, end: nat, o: nat)
    requires end <= |p| && o in MssOptions(p, i, end)
    ensures i <= o && o + 4 <= end
    decreases end - i
  {
    if p[i] == 1 {
      OptionsInside(p, i + 1, end, o);
    } else if o != i || p[i] != 2 || p[i + 1] != 4 {
      OptionsInside(p, i + p[i + 1], end, o);
    }
  }

  function Mss(p: seq<u8>, o: nat): u16
    requires o + 4 <= |p|
  {
    Be16(p[o + 2], p[o + 3])
  }

  /** Byte `k` belongs to the value of one of the options in `opts`. */
  ghost predicate IsMssByte(opts: set<nat>, k: nat) {
    (k >= 2 && k - 2 in opts) || (k >= 3 && k - 3 in opts)
  }

  /** Some MSS option of `p` announces more than `maxMss`. */
  ghost predicate Exceeds(p: seq<u8>, maxMss: u16) {
    exists o {:trigger Mss(p, o)} :: o in Reached(p) && o + 4 <= |p| && Mss(p, o) > maxMss
  }

  /** What clamping does to a packet. If no MSS option exceeds the bound, nothing.
      Otherwise every MSS option ends up at its old value or the bound, whichever is
      lower, the TCP checksum is valid, and every other byte is as it was. */
  ghost predicate IsClamped(p: seq<u8>, q: seq<u8>, maxMss: u16) {
    && |q| == |p|
    && (!Exceeds(p, maxMss) ==> q == p)
    && (Exceeds(p, maxMss) ==>
          && IsSyn(p)
          && (forall o {:trigger Mss(q, o)} :: o in Reached(p) && o + 4 <= |p| ==>
                Mss(q, o) == if Mss(p, o) > maxMss then maxMss else Mss(p, o))
          && (forall k {:trigger q[k]} ::
                0 <= k < |p| && !IsMssByte(Reached(p), k) && k != HeaderLen(p) + 16 && k != HeaderLen(p) + 17 ==>
                q[k] == p[k])
          && (|p| <= 65535 ==> ChecksumOk(q, HeaderLen(p))))
  }

  /** The part of the walk that has been done: options before `i` are lowered, the rest
      of the packet is untouched. */
  ghost predicate WalkedTo(p: seq<u8>, q: seq<u8>, maxMss: u16, i: nat, done: set<nat>, changed: bool) {
    && |q| == |p|
    && (forall o :: o in done ==> o + 4 <= i)
    && (forall o {:trigger Mss(q, o)} :: o in done && o + 4 <= |p| ==>
          Mss(q, o) == if Mss(p, o) > maxMss then maxMss else Mss(p, o))
    && (forall k {:trigger q[k]} :: 0 <= k < |p| && !IsMssByte(done, k) ==> q[k] == p[k])
    && (changed <==> exists o {:trigger Mss(p, o)} :: o in done && o + 4 <= |p| && Mss(p, o) > maxMss)
  }

  /** `q'` is `q` with the option at `i` lowered to the bound if it exceeds it. */
  ghost predicate OptionLowered(q: seq<u8>, q': seq<u8>, maxMss: u16, i: nat) {
    && i + 4 <= |q| == |q'|
    && Mss(q', i) == (if Mss(q, i) > maxMss then maxMss else Mss(q, i))
    && q'[..i + 2] == q[..i + 2]
    && q'[i + 4..] == q[i + 4..]
  }

  lemma LoweredElsewhere(q: seq<u8>, q': seq<u8>, maxMss: u16, i: nat, k: nat)
    requires OptionLowered(q, q', maxMss, i) && k < |q| && k != i + 2 && k != i + 3
    ensures q'[k] == q[k]
  {
    if k < i + 2 {
      assert q'[..i + 2][k] == q[..i + 2][k];
    } else {
      assert q'[i + 4..][k - (i + 4)] == q[i + 4..][k - (i + 4)];
    }
  }

  lemma WalkOptionValue(p: seq<u8>, q: seq<u8>, q': seq<u8>, maxMss: u16, i: nat, done: set<nat>, changed: bool, o: nat)
    requires WalkedTo(p, q, maxMss, i, done, changed) && OptionLowered(q, q', maxMss, i)
    requires o in done + {i}
    ensures o + 4 <= i + 4 && Mss(q', o) == if Mss(p, o) > maxMss then maxMss else Mss(p, o)
  {
    if o == i {
      AheadUntouched(p, q, maxMss, i, done, changed, i + 2);
      AheadUntouched(p, q, maxMss, i, done, changed, i + 3);
    } else {
      LoweredElsewhere(q, q', maxMss, i, o + 2);
      LoweredElsewhere(q, q', maxMss, i, o + 3);
      assert Mss(q', o) == Mss(q, o);
    }
  }

  lemma WalkOptionByte(p: seq<u8>, q: seq<u8>, q': seq<u8>, maxMss: u16, i: nat, done: set<nat>, changed: bool, k: nat)
    requires WalkedTo(p, q, maxMss, i, done, changed) && OptionLowered(q, q', maxMss, i)
    requires k < |p| && !IsMssByte(done + {i}, k)
    ensures q'[k] == p[k]
  {
    assert i in done + {i};
    assert k != i + 2 && k != i + 3 && !IsMssByte(done, k);
    LoweredElsewhere(q, q', maxMss, i, k);
  }

  /** Lowering one option extends the walked part by that option. */
  lemma WalkOption(p: seq<u8>, q: seq<u8>, q': seq<u8>, maxMss: u16, i: nat, done: set<nat>, changed: bool)
    requires WalkedTo(p, q, maxMss, i, done, changed) && OptionLowered(q, q', maxMss, i)
    ensures WalkedTo(p, q', maxMss, i + 4, done + {i}, changed || Mss(q, i) > maxMss)
  {
    forall o {:trigger Mss(q', o)} | o in done + {i}
      ensures o + 4 <= i + 4 && Mss(q', o) == if Mss(p, o) > maxMss then maxMss else Mss(p, o)
    {
      WalkOptionValue(p, q, q', maxMss, i, done, changed, o);
    }
    forall k {:trigger q'[k]} | 0 <= k < |p| && !IsMssByte(done + {i}, k)
      ensures q'[k] == p[k]
    {
      WalkOptionByte(p, q, q', maxMss, i, done, changed, k);
    }
    AheadUntouched(p, q, maxMss, i, done, changed, i + 2);
    AheadUntouched(p, q, maxMss, i, done, changed, i + 3);
    assert Mss(q, i) == Mss(p, i);
  }

  lemma WalkFurther(p: seq<u8>, q: seq<u8>, maxMss: u16, i: nat, j: nat, done: set<nat>, changed: bool)
    requires WalkedTo(p, q, maxMss, i, done, changed) && i <= j
    ensures WalkedTo(p, q, maxMss, j, done, changed)
  {
  }

  /** The bytes ahead of the walk are still the original ones. */
  lemma AheadUntouched(p: seq<u8>, q: seq<u8>, maxMss: u16, i: nat, done: set<nat>, changed: bool, k: nat)
    requires WalkedTo(p, q, maxMss, i, done, changed) && i <= k < |p|
    ensures q[k] == p[k]
  {
    assert !IsMssByte(done, k);
  }

  /** The walking loop of `clamp_tcp_mss`, over the options from `start` to `end`. */
  method LowerMssOptions(pkt: array<u8>, start: nat, end: nat, maxMss: u16) returns (changed: bool)
    requires start <= end <= pkt.Length
    modifies pkt
    ensures WalkedTo(old(pkt[..]), pkt[..], maxMss, end, MssOptions(old(pkt[..]), start, end), changed)
  {
    ghost var p := pkt[..];
    ghost var done: set<nat> := {};
    var i := start;
    changed := false;
    while i + 1 < end
      invariant start <= i <= end
      invariant WalkedTo(p, pkt[..], maxMss, i, done, changed)
      invariant MssOptions(p, start, end) == done + MssOptions(p, i, end)
      decreases end - i
    {
      ghost var q, before := pkt[..], changed;
      AheadUntouched(p, q, maxMss, i, done, changed, i);
      AheadUntouched(p, q, maxMss, i, done, changed, i + 1);
      assert pkt[i] == p[i] && pkt[i + 1] == p[i + 1];
      if pkt[i] == 0 {
        break;
      } else if pkt[i] == 1 {
        WalkFurther(p, q, maxMss, i, i + 1, done, changed);
        i := i + 1;
      } else {
        var len := pkt[i + 1];
        if len < 2 || i + len > end {
          break;
        }
        if pkt[i] == 2 && len == 4 {
          changed := LowerOption(pkt, i, maxMss, changed);
          WalkOption(p, q, pkt[..], maxMss, i, done, before);
          done := done + {i};
        } else {
          WalkFurther(p, q, maxMss, i, i + len, done, changed);
        }
        i := i + len;
      }
    }
    assert MssOptions(p, i, end) == {};
    WalkFurther(p, pkt[..], maxMss, i, end, done, changed);
  }

  /** Lower the MSS option at `i` if it exceeds the bound. */
  method LowerOption(pkt: array<u8>, i: nat, maxMss: u16, changed: bool) returns (changed': bool)
    requires i + 4 <= pkt.Length
    modifies pkt
    ensures OptionLowered(old(pkt[..]), pkt[..], maxMss, i)
    ensures changed' <==> changed || Mss(old(pkt[..]), i) > maxMss
  {
    changed' := changed;
    if Be16(pkt[i + 2], pkt[i + 3]) > maxMss {
      pkt[i + 2] := maxMss / 0x100;
      pkt[i + 3] := maxMss % 0x100;
      changed' := true;
    }
  }

  /** A finished walk whose packet then got a valid checksum is a clamped packet. */
  lemma WalkedIsClamped(p: seq<u8>, q: seq<u8>, r: seq<u8>, maxMss: u16, end: nat, changed: bool)
    requires IsSyn(p) && end == HeaderLen(p) + DataOffset(p)
    requires WalkedTo(p, q, maxMss, end, Reached(p), changed) && |r| == |q|
    requires !changed ==> r == q
    requires changed ==> forall k :: 0 <= k < |q| && k != HeaderLen(p) + 16 && k != HeaderLen(p) + 17 ==> r[k] == q[k]
    requires changed && |r| <= 65535 ==> ChecksumOk(r, HeaderLen(p))
    ensures changed <==> Exceeds(p, maxMss)
    ensures IsClamped(p, r, maxMss)
  {
    var start := HeaderLen(p) + 20;
    forall o {:trigger Mss(r, o)} | o in Reached(p)
      ensures start <= o && o + 4 <= end && Mss(r, o) == Mss(q, o)
    {
      OptionsInside(p, start, end, o);
    }
    if !changed {
      forall k | 0 <= k < |p|
        ensures q[k] == p[k]
      {
        if IsMssByte(Reached(p), k) {
          var o := if k >= 2 && k - 2 in Reached(p) then k - 2 else k - 3;
          assert Mss(q, o) == Mss(p, o);
        }
      }
    }
  }

  lemma OnlySynsAreClamped(p: seq<u8>, maxMss: u16)
    requires !IsSyn(p)
    ensures !Exceeds(p, maxMss) && IsClamped(p, p, maxMss)
  {
  }

  /** `clamp_tcp_mss`. */
  method ClampTcpMss(pkt: array<u8>, maxMss: u16) returns (changed: bool)
    modifies pkt
    ensures changed <==> Exceeds(old(pkt[..]), maxMss)
    ensures IsClamped(old(pkt[..]), pkt[..], maxMss)
  {
    ghost var p := pkt[..];
    if pkt.Length < 20 || pkt[0] / 16 != 4 {
      OnlySynsAreClamped(p, maxMss);
      return false;
    }
    var ihl := pkt[0] % 16 * 4;
    if ihl < 20 || pkt.Length < ihl + 20 || pkt[9] != 6 {
      OnlySynsAreClamped(p, maxMss);
      return false;
    }
    var tcp := ihl;
    var dataOff := pkt[tcp + 12] / 16 * 4;
    if dataOff < 20 || pkt.Length < tcp + dataOff {
      OnlySynsAreClamped(p, maxMss);
      return false;
    }
    if pkt[tcp + 13] / SYN % 2 == 0 {
      OnlySynsAreClamped(p, maxMss);
      return false;
    }
    assert IsSyn(p) && Reached(p) == MssOptions(p, tcp + 20, tcp + dataOff);
    changed := LowerMssOptions(pkt, tcp + 20, tcp + dataOff, maxMss);
    ghost var q := pkt[..];
    if changed {
      RecomputeTcpChecksum(pkt, ihl);
    }
    WalkedIsClamped(p, q, pkt[..], maxMss, tcp + dataOff, changed);
  }

  // ----- what clamping means for later readers -----

  /** The walk depends only on bytes that are not MSS values. */
  lemma {:induction false} SameWalk(p: seq<u8>, q: seq<u8>, i: nat, end: nat)
    requires end <= |p| == |q|
    requires forall k {:trigger q[k]} :: i <= k < end && !IsMssByte(MssOptions(p, i, end), k) ==> q[k] == p[k]
    ensures MssOptions(q, i, end) == MssOptions(p, i, end)
    decreases end - i
  {
    if i + 1 < end {
      NotAnMssByte(p, i, end, i);
      NotAnMssByte(p, i, end, i + 1);
      assert q[i] == p[i] && q[i + 1] == p[i + 1];
      if p[i] == 0 {
      } else if p[i] == 1 {
        SameWalk(p, q, i + 1, end);
      } else if p[i + 1] < 2 || i + p[i + 1] > end {
      } else {
        var next := i + p[i + 1];
        forall k {:trigger q[k]} | next <= k < end && !IsMssByte(MssOptions(p, next, end), k)
          ensures q[k] == p[k]
        {
          assert !IsMssByte(MssOptions(p, i, end), k);
        }
        SameWalk(p, q, next, end);
      }
    }
  }

  lemma NotAnMssByte(p: seq<u8>, i: nat, end: nat, k: nat)
    requires end <= |p| && i <= k <= i + 1
    ensures !IsMssByte(MssOptions(p, i, end), k)
  {
    if k >= 2 && k - 2 in MssOptions(p, i, end) {
      OptionsInside(p, i, end, k - 2);
    }
    if k >= 3 && k - 3 in MssOptions(p, i, end) {
      OptionsInside(p, i, end, k - 3);
    }
  }

  /** The header fields are not MSS values either. */
  lemma HeaderIsNotMss(p: seq<u8>, k: nat)
    requires IsSyn(p) && k < HeaderLen(p) + 20
    ensures !IsMssByte(Reached(p), k)
  {
    var start, end := HeaderLen(p) + 20, HeaderLen(p) + DataOffset(p);
    if k >= 2 && k - 2 in Reached(p) {
      OptionsInside(p, start, end, k - 2);
    }
    if k >= 3 && k - 3 in Reached(p) {
      OptionsInside(p, start, end, k - 3);
    }
  }

  /** A clamped packet has the same MSS options as the original one. */
  lemma ClampingKeepsOptions(p: seq<u8>, q: seq<u8>, maxMss: u16)
    requires IsClamped(p, q, maxMss)
    ensures Reached(q) == Reached(p)
  {
    if Exceeds(p, maxMss) {
      var start, end := HeaderLen(p) + 20, HeaderLen(p) + DataOffset(p);
      HeaderIsNotMss(p, 0);
      HeaderIsNotMss(p, 9);
      HeaderIsNotMss(p, HeaderLen(p) + 12);
      HeaderIsNotMss(p, HeaderLen(p) + 13);
      assert q[0] == p[0] && q[9] == p[9];
      assert q[HeaderLen(p) + 12] == p[HeaderLen(p) + 12] && q[HeaderLen(p) + 13] == p[HeaderLen(p) + 13];
      SameWalk(p, q, start, end);
    }
  }

  /** After clamping no MSS option exceeds the bound, so clamping again with the same
      bound changes nothing and reports nothing. */
  lemma ClampingSettles(p: seq<u8>, q: seq<u8>, r: seq<u8>, maxMss: u16)
    requires IsClamped(p, q, maxMss) && IsClamped(q, r, maxMss)
    ensures !Exceeds(q, maxMss) && r == q
  {
    ClampingKeepsOptions(p, q, maxMss);
    forall o {:trigger Mss(q, o)} | o in Reached(q) && o + 4 <= |q|
      ensures Mss(q, o) <= maxMss
    {
      assert Exceeds(p, maxMss) || Mss(p, o) <= maxMss;
    }
  }

  /** The packet differs afterwards exactly when an option exceeded the bound, which is
      what the returned flag says. */
  lemma ClampingReportsChanges(p: seq<u8>, q: seq<u8>, maxMss: u16)
    requires IsClamped(p, q, maxMss)
    ensures q != p <==> Exceeds(p, maxMss)
  {
    if Exceeds(p, maxMss) {
      var o :| o in Reached(p) && o + 4 <= |p| && Mss(p, o) > maxMss;
      assert Mss(q, o) == maxMss;
    }
  }
}
