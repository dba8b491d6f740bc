/** MSS clamping on packets that are built apart from the walk: from a list of TCP options
    (RFC 9293 section 3.2), and the checksum from the bytes it covers (section 3.1). */
module PacketOptions {
  import opened Basics
  import opened Packets

  // ----- options -----

  /** A no-operation byte, or an option with a length: kind, length, payload. */
  datatype TcpOption = Nop | Sized(kind: u8, payload: seq<u8>)

  predicate WellFormed(o: TcpOption) {
    o.Sized? ==> o.kind != 0 && o.kind != 1 && |o.payload| <= 253
  }

  predicate AllWellFormed(opts: seq<TcpOption>) {
    forall k :: 0 <= k < |opts| ==> WellFormed(opts[k])
  }

  function Length(o: TcpOption): nat {
    if o.Nop? then 1 else 2 + |o.payload|
  }

  /** The option stands in `p` at `i`: a byte 1, or its kind, its length, and its payload. */
  predicate StandsAt(p: seq<u8>, i: nat, o: TcpOption) {
    && i + Length(o) <= |p|
    && if o.Nop? then p[i] == 1
       else p[i] == o.kind && p[i + 1] == Length(o) && p[i + 2..i + Length(o)] == o.payload
  }

  /** An option of kind 2 with two bytes of payload announces an MSS. */
  function OwnMss(o: TcpOption, i: nat): set<nat> {
    if o.Sized? && o.kind == 2 && |o.payload| == 2 then {i} else {}
  }

  /** Where such options begin, if the first option of the list begins at `i`. */
  function MssAt(opts: seq<TcpOption>, i: nat): set<nat>
    requires AllWellFormed(opts)
  {
    if opts == [] then {}
    else OwnMss(opts[0], i) + MssAt(opts[1..], i + Length(opts[0]))
  }

  lemma WalkReadsOne(p: seq<u8>, i: nat, end: nat, o: TcpOption)
    requires WellFormed(o) && StandsAt(p, i, o) && i + Length(o) <= end <= |p|
    ensures MssOptions(p, i, end)
            == OwnMss(o, i) + MssOptions(p, i + Length(o), end)
  {
  }

  lemma Joined(a: set<nat>, b: set<nat>, rest: set<nat>)
    ensures a + (b + rest) == (a + b) + rest
  {
  }

  /** The options stand in `p` one after the other, from `i` to `next`. */
  predicate Laid(p: seq<u8>, i: nat, opts: seq<TcpOption>, next: nat)
    decreases |opts|
  {
    i <= next
    && if opts == [] then next == i
       else WellFormed(opts[0]) && StandsAt(p, i, opts[0]) && Laid(p, i + Length(opts[0]), opts[1..], next)
  }

  lemma LaidFirst(p: seq<u8>, i: nat, opts: seq<TcpOption>, next: nat)
    requires opts != [] && Laid(p, i, opts, next)
    ensures WellFormed(opts[0]) && StandsAt(p, i, opts[0]) && i + Length(opts[0]) <= next
    ensures Laid(p, i + Length(opts[0]), opts[1..], next)
  {
  }

  lemma WalkReadsMore(p: seq<u8>, i: nat, after: nat, end: nat, o: TcpOption, later: set<nat>, rest: set<nat>)
    requires WellFormed(o) && StandsAt(p, i, o) && after == i + Length(o) <= end <= |p|
    requires MssOptions(p, after, end) == later + rest
    ensures MssOptions(p, i, end) == (OwnMss(o, i) + later) + rest
  {
    WalkReadsOne(p, i, end, o);
    Joined(OwnMss(o, i), later, rest);
  }

  /** The walk reads any list of well-formed options: it meets exactly the MSS options. */
  lemma {:induction false} WalkReadsOptions(p: seq<u8>, i: nat, end: nat, opts: seq<TcpOption>, next: nat)
    requires AllWellFormed(opts) && Laid(p, i, opts, next) && next <= end <= |p|
    ensures MssOptions(p, i, end) == MssAt(opts, i) + MssOptions(p, next, end)
    decreases |opts|
  {
    if opts != [] {
      var after := i + Length(opts[0]);
      LaidFirst(p, i, opts, next);
      WalkReadsOptions(p, after, end, opts[1..], next);
      WalkReadsMore(p, i, after, end, opts[0], MssAt(opts[1..], after), MssOptions(p, next, end));
    }
  }

  /** Nothing more is read at the end of the options, at an end-of-list byte, or at a length
      that is cut off, below two, or leads beyond the end. */
  predicate Stops(p: seq<u8>, i: nat, end: nat)
    requires i <= end <= |p|
  {
    || i == end
    || p[i] == 0
    || (p[i] != 1 && (i + 1 == end || p[i + 1] < 2 || i + p[i + 1] > end))
  }

  lemma WalkStops(p: seq<u8>, i: nat, end: nat)
    requires i <= end <= |p| && Stops(p, i, end)
    ensures MssOptions(p, i, end) == {}
  {
  }

  // ----- segments -----

  /** An IPv4 TCP segment with the SYN flag, an IP header of `w` 32-bit words, and `r` words
      of options. */
  predicate IsSynSegment(p: seq<u8>, w: nat, r: nat) {
    && 5 <= w <= 15 && r <= 10 && 4 * w + 20 + 4 * r <= |p|
    && p[0] == 0x40 + w
    && p[9] == 6
    && p[4 * w + 12] / 16 == 5 + r
    && p[4 * w + 13] / 2 % 2 == 1
  }

  /** `start` and `end` bound the options. */
  predicate OptionsLie(w: nat, r: nat, start: nat, end: nat) {
    start == 4 * w + 20 && end == start + 4 * r
  }

  lemma SegmentIsSyn(p: seq<u8>, w: nat, r: nat, start: nat, end: nat)
    requires IsSynSegment(p, w, r) && OptionsLie(w, r, start, end)
    ensures end <= |p| && IsSyn(p) && HeaderLen(p) + 20 == start
    ensures Reached(p) == MssOptions(p, start, end)
  {
    assert p[0] / 16 == 4 && p[0] % 16 == w;
  }

  lemma ListIsRead(p: seq<u8>, start: nat, end: nat, opts: seq<TcpOption>, next: nat)
    requires AllWellFormed(opts) && Laid(p, start, opts, next) && next <= end <= |p| && Stops(p, next, end)
    ensures MssOptions(p, start, end) == MssAt(opts, start)
  {
    WalkReadsOptions(p, start, end, opts, next);
    WalkStops(p, next, end);
  }

  lemma AnnouncedIsRead(p: seq<u8>, start: nat, end: nat, before: seq<TcpOption>, v: u16, at: nat)
    requires AllWellFormed(before) && Laid(p, start, before, at) && at + 4 <= end <= |p|
    requires StandsAt(p, at, MssOption(v))
    ensures at in MssOptions(p, start, end)
  {
    WalkReadsOptions(p, start, end, before, at);
    WalkReadsOne(p, at, end, MssOption(v));
  }

  /** The MSS options of a SYN or SYN-ACK are those of its option list, which ends at `next`. */
  lemma SynOptionsAreReached(p: seq<u8>, w: nat, r: nat, opts: seq<TcpOption>, start: nat, next: nat, end: nat)
    requires IsSynSegment(p, w, r) && OptionsLie(w, r, start, end)
    requires AllWellFormed(opts) && Laid(p, start, opts, next) && next <= end <= |p| && Stops(p, next, end)
    ensures Reached(p) == MssAt(opts, start)
  {
    ListIsRead(p, start, end, opts, next);
    SegmentIsSyn(p, w, r, start, end);
  }

  function MssOption(v: u16): TcpOption {
    Sized(2, [v / 0x100, v % 0x100])
  }

  /** A SYN or SYN-ACK that announces `v` after any well-formed options, whatever follows,
      announces the lower of `v` and the bound once it is clamped. */
  lemma AnnouncedMssIsClamped(p: seq<u8>, q: seq<u8>, maxMss: u16, w: nat, r: nat, start: nat, end: nat,
                              before: seq<TcpOption>, v: u16, at: nat)
    requires IsSynSegment(p, w, r) && OptionsLie(w, r, start, end) && end <= |p|
    requires AllWellFormed(before) && Laid(p, start, before, at) && at + 4 <= end
    requires StandsAt(p, at, MssOption(v))
    requires IsClamped(p, q, maxMss)
    ensures |q| == |p| && q[at] == 2 && q[at + 1] == 4
    ensures (q[at + 2] as int) * 0x100 + q[at + 3] == (if v < maxMss then v else maxMss)
    ensures v > maxMss && |p| <= 65535 ==> ChecksumOk(q, 4 * w)
  {
    AnnouncedIsReached(p, w, r, start, end, before, v, at);
    ReachedIsClamped(p, q, maxMss, at, v);
  }

  lemma AnnouncedIsReached(p: seq<u8>, w: nat, r: nat, start: nat, end: nat, before: seq<TcpOption>, v: u16, at: nat)
    requires IsSynSegment(p, w, r) && OptionsLie(w, r, start, end) && end <= |p|
    requires AllWellFormed(before) && Laid(p, start, before, at) && at + 4 <= end
    requires StandsAt(p, at, MssOption(v))
    ensures at in Reached(p) && HeaderLen(p) == 4 * w && p[at] == 2 && p[at + 1] == 4 && Mss(p, at) == v
  {
    AnnouncedIsRead(p, start, end, before, v, at);
    SegmentIsSyn(p, w, r, start, end);
    ReadsBack(p, at, v);
  }

  lemma ReachedIsClamped(p: seq<u8>, q: seq<u8>, maxMss: u16, at: nat, v: u16)
    requires IsClamped(p, q, maxMss) && at in Reached(p) && at + 4 <= |p|
    requires p[at] == 2 && p[at + 1] == 4 && Mss(p, at) == v
    ensures |q| == |p| && q[at] == 2 && q[at + 1] == 4
    ensures (q[at + 2] as int) * 0x100 + q[at + 3] == (if v < maxMss then v else maxMss)
    ensures v > maxMss && |p| <= 65535 ==> ChecksumOk(q, HeaderLen(p))
  {
    MssStaysReadable(p, q, maxMss, at);
  }

  lemma ReadsBack(p: seq<u8>, at: nat, v: u16)
    requires StandsAt(p, at, MssOption(v))
    ensures p[at] == 2 && p[at + 1] == 4 && Mss(p, at) == v
  {
    assert p[at + 2..at + 4] == [v / 0x100, v % 0x100];
    assert p[at + 2] == p[at + 2..at + 4][0] && p[at + 3] == p[at + 2..at + 4][1];
  }

  lemma MssStaysReadable(p: seq<u8>, q: seq<u8>, maxMss: u16, at: nat)
    requires IsClamped(p, q, maxMss) && at in Reached(p) && at + 4 <= |p|
    requires p[at] == 2 && p[at + 1] == 4
    ensures q[at] == 2 && q[at + 1] == 4
    ensures Mss(q, at) == (if Mss(p, at) < maxMss then Mss(p, at) else maxMss)
    ensures Mss(p, at) > maxMss && |p| <= 65535 ==> ChecksumOk(q, HeaderLen(p))
  {
    ClampingKeepsOptions(p, q, maxMss);
    if Exceeds(p, maxMss) {
      var end := HeaderLen(p) + DataOffset(p);
      OptionsInside(p, HeaderLen(p) + 20, end, at);
      NotMssValue(p, HeaderLen(p) + 20, end, at, at);
      NotMssValue(p, HeaderLen(p) + 20, end, at, at + 1);
      assert q[at] == p[at] && q[at + 1] == p[at + 1];
    }
  }

  /** Two options do not overlap: the kind and length of one are no MSS value. */
  lemma {:induction false} NotMssValue(p: seq<u8>, i: nat, end: nat, at: nat, k: nat)
    requires end <= |p| && at in MssOptions(p, i, end) && (k == at || k == at + 1)
    ensures !IsMssByte(MssOptions(p, i, end), k)
    decreases end - i
  {
    var next := if p[i] == 1 then i + 1 else i + p[i + 1];
    if at == i {
      NotAnMssByte(p, i, end, k);
    } else {
      NotMssValue(p, next, end, at, k);
      OptionsInside(p, next, end, at);
    }
  }

  /** Anything else passes as it is: what is no IPv4, no TCP, or has no SYN flag. */
  lemma OthersPass(p: seq<u8>, q: seq<u8>, maxMss: u16)
    requires IsClamped(p, q, maxMss)
    requires || |p| < 20
             || p[0] / 16 != 4
             || p[9] != 6
             || (p[0] % 16 * 4 + 13 < |p| && p[p[0] % 16 * 4 + 13] / 2 % 2 == 0)
    ensures q == p
  {
  }

  // ----- the checksum -----

  /** The bytes that the TCP checksum covers: both addresses, a zero byte, the protocol, the
      segment length, and the segment. */
  function PseudoSegment(p: seq<u8>, tcp: nat): seq<u8>
    requires 20 <= tcp <= |p| <= 65535
  {
    p[12..20] + [0, 6, (|p| - tcp) / 0x100, (|p| - tcp) % 0x100] + p[tcp..]
  }

  lemma {:induction false} WordsShift(p: seq<u8>, i: nat, q: seq<u8>, j: nat)
    requires i <= |p| && j <= |q| && p[i..] == q[j..]
    ensures Words(p, i) == Words(q, j)
    decreases |p| - i
  {
    assert |p| - i == |q| - j;
    if i + 1 < |p| {
      assert p[i..][0] == q[j..][0] && p[i..][1] == q[j..][1];
      assert p[i..][2..] == p[i + 2..] && q[j..][2..] == q[j + 2..];
      WordsShift(p, i + 2, q, j + 2);
    } else if i < |p| {
      assert p[i..][0] == q[j..][0];
    }
  }

  /** The sum is that of the big-endian words of those bytes. */
  lemma CoveredIsPseudoSegment(p: seq<u8>, tcp: nat)
    requires 20 <= tcp <= |p| <= 65535
    ensures Covered(p, tcp) == Words(PseudoSegment(p, tcp), 0)
  {
    var b := PseudoSegment(p, tcp);
    assert b[..8] == p[12..20] && b[12..] == p[tcp..];
    assert forall k :: 0 <= k < 8 ==> b[k] == b[..8][k] == p[12..20][k] == p[12 + k];
    assert Words(b, 0) == Be16(b[0], b[1]) + Words(b, 2);
    assert Words(b, 2) == Be16(b[2], b[3]) + Words(b, 4);
    assert Words(b, 4) == Be16(b[4], b[5]) + Words(b, 6);
    assert Words(b, 6) == Be16(b[6], b[7]) + Words(b, 8);
    assert Words(b, 8) == Be16(b[8], b[9]) + Words(b, 10);
    assert Words(b, 10) == Be16(b[10], b[11]) + Words(b, 12);
    WordsShift(b, 12, p, tcp);
  }

  /** An odd last byte counts as if a zero byte followed. */
  lemma {:induction false} OddIsPadded(p: seq<u8>, i: nat)
    requires i <= |p| && (|p| - i) % 2 == 1
    ensures Words(p, i) == Words(p + [0], i)
    decreases |p| - i
  {
    if i + 1 < |p| {
      OddIsPadded(p, i + 2);
    }
  }

  /** One's-complement arithmetic: a sum folds to all ones exactly when it is a positive
      multiple of 65535. */
  lemma FoldsToAllOnes(n: nat)
    ensures Fold(n) == 0xffff <==> n > 0 && n % 0xffff == 0
  {
    var k := FoldResidue(n);
    assert n - 0xffff * k == Fold(n);
    if n > 0 && n % 0xffff == 0 {
      assert Fold(n) == 0xffff * (n / 0xffff - k);
    }
    if Fold(n) == 0xffff {
      assert n == 0xffff * (k + 1);
    }
  }
}
