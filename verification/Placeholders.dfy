/** Filling a member's details into a token of a command. The source replaces one
    placeholder after the other; this module says when that is the same as filling in all
    of them at once. */
module Placeholders {
  import opened Basics

  /** `str::replace`: left to right, without overlaps. */
  function Replace(s: string, from: string, to: string): string
    requires from != ""
    decreases |s|
  {
    if |s| < |from| then s
    else if s[..|from|] == from then to + Replace(s[|from|..], from, to)
    else [s[0]] + Replace(s[1..], from, to)
  }

  datatype Member = Member(
    nodeId: string, hostname: Option<string>, givenName: Option<string>, virtualIp: Option<string>)

  function Or(o: Option<string>, other: string): string {
    if o.Some? then o.value else other
  }

  function DisplayName(m: Member): string {
    Or(m.givenName, Or(m.hostname, if |m.nodeId| < 8 then m.nodeId else m.nodeId[..8]))
  }

  const IP := "{ip}"

  type Index = i: int | 0 <= i < 4

  /** The placeholders, in the order in which they are filled in. */
  function Mark(i: Index): (mark: string)
    ensures mark != ""
  {
    if i == 0 then IP else if i == 1 then "{name}" else if i == 2 then "{hostname}" else "{node_id}"
  }

  function Value(m: Member, i: Index): string {
    if i == 0 then Or(m.virtualIp, "")
    else if i == 1 then DisplayName(m)
    else if i == 2 then Or(m.hostname, "")
    else m.nodeId
  }

  /** The placeholders are filled in one after the other. */
  function Expand(token: string, m: Member): string {
    Replace(Replace(Replace(Replace(token, Mark(0), Value(m, 0)), Mark(1), Value(m, 1)),
                    Mark(2), Value(m, 2)), Mark(3), Value(m, 3))
  }

  // ----- texts that begin with a mark -----

  predicate Starts(s: string, mark: string) {
    |mark| <= |s| && s[..|mark|] == mark
  }

  predicate BraceFree(s: string) {
    '{' !in s
  }

  /** An opening brace, at least two more characters, and no further opening brace. */
  predicate IsMark(mark: string) {
    |mark| >= 3 && mark[0] == '{' && BraceFree(mark[1..])
  }

  predicate Apart(mark: string, other: string)
    requires IsMark(mark) && IsMark(other)
  {
    mark[..3] != other[..3]
  }

  lemma MarkShape(i: Index)
    ensures IsMark(Mark(i))
  {
  }

  lemma MarksApart(i: Index, j: Index)
    requires i != j
    ensures Mark(i)[..3] != Mark(j)[..3]
  {
    assert Mark(i)[..3][1] == Mark(i)[1] && Mark(i)[..3][2] == Mark(i)[2];
    assert Mark(j)[..3][1] == Mark(j)[1] && Mark(j)[..3][2] == Mark(j)[2];
  }

  lemma MarksAre(i: Index, j: Index)
    ensures IsMark(Mark(i)) && IsMark(Mark(j)) && (i != j ==> Apart(Mark(i), Mark(j)))
  {
    MarkShape(i);
    MarkShape(j);
    if i != j {
      MarksApart(i, j);
    }
  }

  lemma Regroup(c: char, tail: string, s: string)
    ensures [c] + tail + s == [c] + (tail + s)
  {
  }

  /** In `text + s` no character of `text` begins `mark`. */
  ghost predicate Quiet(text: string, s: string, mark: string) {
    forall q :: 0 <= q < |text| ==> !Starts(text[q..] + s, mark)
  }

  lemma QuietHeadTail(text: string, s: string, mark: string)
    requires text != "" && Quiet(text, s, mark)
    ensures !Starts([text[0]] + (text[1..] + s), mark) && Quiet(text[1..], s, mark)
  {
    assert text[0..] + s == [text[0]] + (text[1..] + s);
    forall q | 0 <= q < |text[1..]|
      ensures !Starts(text[1..][q..] + s, mark)
    {
      assert text[1..][q..] == text[q + 1..];
    }
  }

  lemma BraceFreeIsQuiet(text: string, s: string, mark: string)
    requires BraceFree(text) && IsMark(mark)
    ensures Quiet(text, s, mark)
  {
    forall q | 0 <= q < |text|
      ensures !Starts(text[q..] + s, mark)
    {
      var t := text[q..] + s;
      assert t[0] == text[q] && text[q] in text;
      assert |mark| <= |t| ==> t[..|mark|][0] == t[0];
    }
  }

  /** A mark holds no beginning of another one. */
  lemma OtherMarkIsQuiet(mark: string, s: string, other: string)
    requires IsMark(mark) && IsMark(other) && Apart(mark, other)
    ensures Quiet(mark, s, other)
  {
    BraceFreeIsQuiet(mark[1..], s, other);
    forall q | 0 <= q < |mark|
      ensures !Starts(mark[q..] + s, other)
    {
      if q == 0 {
        var t := mark[q..] + s;
        assert t[..3] == mark[..3];
        assert |other| <= |t| ==> t[..|other|][..3] == t[..3];
      } else {
        assert mark[1..][q - 1..] == mark[q..];
      }
    }
  }

  lemma StartsWith(mark: string, s: string)
    ensures Starts(mark + s, mark) && (mark + s)[|mark|..] == s
  {
  }

  lemma StartsSplit(s: string, mark: string)
    requires Starts(s, mark)
    ensures s == mark + s[|mark|..]
  {
  }

  // ----- replacing -----

  lemma ReplaceSteps(c: char, s: string, from: string, to: string)
    requires from != "" && !Starts([c] + s, from)
    ensures Replace([c] + s, from, to) == [c] + Replace(s, from, to)
  {
    assert ([c] + s)[1..] == s;
  }

  lemma {:induction false} ReplaceSkips(text: string, s: string, from: string, to: string)
    requires from != "" && Quiet(text, s, from)
    ensures Replace(text + s, from, to) == text + Replace(s, from, to)
  {
    if text == "" {
      assert text + s == s;
    } else {
      var c, tail, r := text[0], text[1..], Replace(s, from, to);
      QuietHeadTail(text, s, from);
      ReplaceSkips(tail, s, from, to);
      ReplaceSteps(c, tail + s, from, to);
      assert text == [c] + tail;
      Regroup(c, tail, s);
      Regroup(c, tail, r);
    }
  }

  lemma ReplaceHits(from: string, s: string, to: string)
    requires from != ""
    ensures Replace(from + s, from, to) == to + Replace(s, from, to)
  {
    StartsWith(from, s);
  }

  // ----- counting -----

  /** At how many places `mark` begins. */
  function Occ(s: string, mark: string): nat {
    if s == "" then 0 else (if Starts(s, mark) then 1 else 0) + Occ(s[1..], mark)
  }

  lemma OccSteps(c: char, s: string, mark: string)
    ensures Occ([c] + s, mark) == (if Starts([c] + s, mark) then 1 else 0) + Occ(s, mark)
  {
    assert ([c] + s)[1..] == s;
  }

  lemma {:induction false} OccSkips(text: string, s: string, mark: string)
    requires Quiet(text, s, mark)
    ensures Occ(text + s, mark) == Occ(s, mark)
  {
    if text == "" {
      assert text + s == s;
    } else {
      QuietHeadTail(text, s, mark);
      OccSkips(text[1..], s, mark);
      OccSteps(text[0], text[1..] + s, mark);
      assert text + s == [text[0]] + (text[1..] + s);
    }
  }

  lemma OccHits(mark: string, s: string)
    requires IsMark(mark)
    ensures Occ(mark + s, mark) == 1 + Occ(s, mark)
  {
    StartsWith(mark, s);
    BraceFreeIsQuiet(mark[1..], s, mark);
    OccSkips(mark[1..], s, mark);
    OccSteps(mark[0], mark[1..] + s, mark);
    assert mark + s == [mark[0]] + (mark[1..] + s);
  }

  lemma {:induction false} OccShort(s: string, mark: string)
    requires |s| < |mark|
    ensures Occ(s, mark) == 0
  {
    if s != "" {
      OccShort(s[1..], mark);
    }
  }

  function Braces(s: string): nat {
    if s == "" then 0 else (if s[0] == '{' then 1 else 0) + Braces(s[1..])
  }

  lemma {:induction false} BracesSum(a: string, b: string)
    ensures Braces(a + b) == Braces(a) + Braces(b)
  {
    if a == "" {
      assert a + b == b;
    } else {
      BracesSum(a[1..], b);
      assert (a + b)[1..] == a[1..] + b && (a + b)[0] == a[0];
    }
  }

  lemma {:induction false} BracesNone(s: string)
    requires BraceFree(s)
    ensures Braces(s) == 0
  {
    if s != "" {
      assert s[0] in s;
      BracesNone(s[1..]);
    }
  }

  lemma BracesOfMark(mark: string)
    requires IsMark(mark)
    ensures Braces(mark) == 1
  {
    BracesNone(mark[1..]);
  }

  /** Each replacement costs one brace. */
  lemma {:induction false} ReplaceCostsBraces(s: string, from: string, to: string)
    requires IsMark(from) && BraceFree(to)
    ensures Braces(Replace(s, from, to)) + Occ(s, from) == Braces(s)
    decreases |s|
  {
    if |s| < |from| {
      OccShort(s, from);
    } else if Starts(s, from) {
      var r := s[|from|..];
      StartsSplit(s, from);
      ReplaceCostsBraces(r, from, to);
      OccHits(from, r);
      BracesSum(from, r);
      BracesOfMark(from);
      BracesSum(to, Replace(r, from, to));
      BracesNone(to);
    } else {
      var c, t := s[0], s[1..];
      ReplaceCostsBraces(t, from, to);
      ReplaceSteps(c, t, from, to);
      BracesSum([c], t);
      BracesSum([c], Replace(t, from, to));
      assert s == [c] + t;
    }
  }

  lemma StartSurvives(c: char, t: string, from: string, to: string, other: string)
    requires IsMark(from) && IsMark(other) && Starts([c] + t, other)
    ensures Starts([c] + Replace(t, from, to), other)
  {
    var tail, r := other[1..], t[|other| - 1..];
    StartsSplit([c] + t, other);
    assert c == other[0] && t == tail + r && other == [c] + tail;
    BraceFreeIsQuiet(tail, r, from);
    ReplaceSkips(tail, r, from, to);
    StartsWith(other, Replace(r, from, to));
    Regroup(c, tail, Replace(r, from, to));
  }

  /** No replacement of one mark costs an occurrence of another. */
  lemma {:induction false} ReplaceKeepsOthers(s: string, from: string, to: string, other: string)
    requires IsMark(from) && IsMark(other) && Apart(from, other) && BraceFree(to)
    ensures Occ(Replace(s, from, to), other) >= Occ(s, other)
    decreases |s|
  {
    if |s| >= |from| {
      if Starts(s, from) {
        var r := s[|from|..];
        StartsSplit(s, from);
        ReplaceKeepsOthers(r, from, to, other);
        OtherMarkIsQuiet(from, r, other);
        OccSkips(from, r, other);
        BraceFreeIsQuiet(to, Replace(r, from, to), other);
        OccSkips(to, Replace(r, from, to), other);
      } else {
        var c, t := s[0], s[1..];
        assert s == [c] + t;
        ReplaceKeepsOthers(t, from, to, other);
        ReplaceSteps(c, t, from, to);
        OccSteps(c, t, other);
        OccSteps(c, Replace(t, from, to), other);
        if Starts(s, other) {
          StartSurvives(c, t, from, to, other);
        }
      }
    }
  }

  // ----- filling in all at once -----

  /** A piece of a token: a character that begins no placeholder, or a placeholder. */
  datatype Piece = Plain(c: char) | Slot(i: Index)

  /** The placeholder that a text begins with. */
  function Opening(s: string): (o: Option<Index>)
    ensures o.Some? ==> Starts(s, Mark(o.value))
    ensures o.None? ==> forall i: Index :: !Starts(s, Mark(i))
  {
    if Starts(s, Mark(0)) then Some(0)
    else if Starts(s, Mark(1)) then Some(1)
    else if Starts(s, Mark(2)) then Some(2)
    else if Starts(s, Mark(3)) then Some(3)
    else None
  }

  function Pieces(s: string): seq<Piece>
    decreases |s|
  {
    if s == "" then []
    else
      var o := Opening(s);
      if o.Some? then [Slot(o.value)] + Pieces(s[|Mark(o.value)|..]) else [Plain(s[0])] + Pieces(s[1..])
  }

  function Shown(p: Piece, m: Member, done: nat): string {
    match p
    case Plain(c) => [c]
    case Slot(i) => if i < done then Value(m, i) else Mark(i)
  }

  function Rendered(pieces: seq<Piece>, m: Member, done: nat): string {
    if pieces == [] then "" else Shown(pieces[0], m, done) + Rendered(pieces[1..], m, done)
  }

  /** One pass over the token, with the first `done` placeholders filled in and the others
      kept as they are written. */
  function Filled(s: string, m: Member, done: nat): string {
    Rendered(Pieces(s), m, done)
  }

  lemma {:induction false} NothingFilled(s: string, m: Member)
    ensures Filled(s, m, 0) == s
    decreases |s|
  {
    if s != "" {
      var o := Opening(s);
      if o.Some? {
        StartsSplit(s, Mark(o.value));
        NothingFilled(s[|Mark(o.value)|..], m);
      } else {
        NothingFilled(s[1..], m);
        assert s == [s[0]] + s[1..];
      }
    }
  }

  predicate IsOpen(p: Piece, j: nat) {
    p.Slot? && p.i >= j
  }

  /** In the text with the first `j` placeholders filled in, nothing but a placeholder of the
      token begins the mark of the next one. */
  ghost predicate NoneJoins(pieces: seq<Piece>, m: Member, j: Index) {
    forall k :: 0 <= k < |pieces| && !IsOpen(pieces[k], j) ==>
      Quiet(Shown(pieces[k], m, j), Rendered(pieces[k + 1..], m, j), Mark(j))
  }

  lemma NoneJoinsFrom(pieces: seq<Piece>, m: Member, j: Index)
    requires pieces != []
    ensures NoneJoins(pieces, m, j) <==>
            && NoneJoins(pieces[1..], m, j)
            && (IsOpen(pieces[0], j) || Quiet(Shown(pieces[0], m, j), Rendered(pieces[1..], m, j), Mark(j)))
  {
    forall k | 0 <= k < |pieces[1..]|
      ensures pieces[1..][k] == pieces[k + 1] && pieces[1..][k + 1..] == pieces[k + 2..]
    {
    }
    if NoneJoins(pieces, m, j) {
      forall k | 0 <= k < |pieces[1..]| && !IsOpen(pieces[1..][k], j)
        ensures Quiet(Shown(pieces[1..][k], m, j), Rendered(pieces[1..][k + 1..], m, j), Mark(j))
      {
        assert !IsOpen(pieces[k + 1], j);
      }
    }
    if NoneJoins(pieces[1..], m, j) {
      forall k | 0 < k < |pieces| && !IsOpen(pieces[k], j)
        ensures Quiet(Shown(pieces[k], m, j), Rendered(pieces[k + 1..], m, j), Mark(j))
      {
        assert !IsOpen(pieces[1..][k - 1], j);
      }
    }
  }

  /** Then the replacement fills in that placeholder everywhere, and nothing else. */
  lemma {:induction false} ReplaceFills(pieces: seq<Piece>, m: Member, j: Index)
    requires NoneJoins(pieces, m, j)
    ensures Replace(Rendered(pieces, m, j), Mark(j), Value(m, j)) == Rendered(pieces, m, j + 1)
  {
    if pieces != [] {
      var p, rest := pieces[0], Rendered(pieces[1..], m, j);
      NoneJoinsFrom(pieces, m, j);
      ReplaceFills(pieces[1..], m, j);
      if p == Slot(j) {
        ReplaceHits(Mark(j), rest, Value(m, j));
      } else {
        if IsOpen(p, j) {
          MarksAre(p.i, j);
          OtherMarkIsQuiet(Mark(p.i), rest, Mark(j));
        }
        ReplaceSkips(Shown(p, m, j), rest, Mark(j), Value(m, j));
      }
    }
  }

  function Slots(pieces: seq<Piece>, j: Index): nat {
    if pieces == [] then 0 else (if pieces[0] == Slot(j) then 1 else 0) + Slots(pieces[1..], j)
  }

  predicate ValuesBraceFree(m: Member) {
    forall i: Index :: BraceFree(Value(m, i))
  }

  /** The mark occurs at the placeholder's own places and wherever a join makes one. */
  lemma {:induction false} JoinsAreExtra(pieces: seq<Piece>, m: Member, j: Index)
    requires ValuesBraceFree(m)
    ensures Occ(Rendered(pieces, m, j), Mark(j)) >= Slots(pieces, j)
    ensures Occ(Rendered(pieces, m, j), Mark(j)) == Slots(pieces, j) ==> NoneJoins(pieces, m, j)
  {
    if pieces != [] {
      var p, rest := pieces[0], Rendered(pieces[1..], m, j);
      NoneJoinsFrom(pieces, m, j);
      JoinsAreExtra(pieces[1..], m, j);
      MarksAre(j, j);
      if p.Plain? {
        OccSteps(p.c, rest, Mark(j));
        QuietOne(p.c, rest, Mark(j));
      } else if p.i == j {
        OccHits(Mark(j), rest);
      } else {
        if p.i < j {
          BraceFreeIsQuiet(Value(m, p.i), rest, Mark(j));
        } else {
          MarksAre(p.i, j);
          OtherMarkIsQuiet(Mark(p.i), rest, Mark(j));
        }
        OccSkips(Shown(p, m, j), rest, Mark(j));
      }
    }
  }

  lemma QuietOne(c: char, s: string, mark: string)
    ensures Quiet([c], s, mark) <==> !Starts([c] + s, mark)
  {
    assert [c][0..] == [c];
  }

  /** The token itself has a mark exactly where it has the placeholder. */
  lemma {:induction false} SlotsAreOccurrences(s: string, j: Index)
    ensures Occ(s, Mark(j)) == Slots(Pieces(s), j)
    decreases |s|
  {
    if s != "" {
      var o := Opening(s);
      if o.Some? {
        var r := s[|Mark(o.value)|..];
        StartsSplit(s, Mark(o.value));
        SlotsAreOccurrences(r, j);
        MarksAre(o.value, j);
        if o.value == j {
          OccHits(Mark(j), r);
        } else {
          OtherMarkIsQuiet(Mark(o.value), r, Mark(j));
          OccSkips(Mark(o.value), r, Mark(j));
        }
      } else {
        SlotsAreOccurrences(s[1..], j);
      }
    }
  }

  /** Each placeholder filled in costs one brace. */
  lemma {:induction false} FillingCostsBraces(pieces: seq<Piece>, m: Member, j: Index)
    requires ValuesBraceFree(m)
    ensures Braces(Rendered(pieces, m, j + 1)) + Slots(pieces, j) == Braces(Rendered(pieces, m, j))
  {
    if pieces != [] {
      var p := pieces[0];
      FillingCostsBraces(pieces[1..], m, j);
      BracesSum(Shown(p, m, j), Rendered(pieces[1..], m, j));
      BracesSum(Shown(p, m, j + 1), Rendered(pieces[1..], m, j + 1));
      if p == Slot(j) {
        MarksAre(j, j);
        BracesOfMark(Mark(j));
        BracesNone(Value(m, j));
      }
    }
  }

  // ----- one after the other -----

  /** The token after the first `k` replacements. */
  function Stage(s: string, m: Member, k: nat): string
    requires k <= 4
  {
    if k == 0 then s else Replace(Stage(s, m, k - 1), Mark(k - 1), Value(m, k - 1))
  }

  lemma ExpandIsStage(s: string, m: Member)
    ensures Expand(s, m) == Stage(s, m, 4)
  {
    assert Stage(s, m, 1) == Replace(s, Mark(0), Value(m, 0));
    assert Stage(s, m, 2) == Replace(Stage(s, m, 1), Mark(1), Value(m, 1));
    assert Stage(s, m, 3) == Replace(Stage(s, m, 2), Mark(2), Value(m, 2));
    assert Stage(s, m, 4) == Replace(Stage(s, m, 3), Mark(3), Value(m, 3));
  }

  lemma {:induction false} LaterMarksSurvive(s: string, m: Member, k: nat, i: Index)
    requires ValuesBraceFree(m) && k <= i
    ensures Occ(Stage(s, m, k), Mark(i)) >= Occ(s, Mark(i))
  {
    if k > 0 {
      LaterMarksSurvive(s, m, k - 1, i);
      MarksAre(k - 1, i);
      ReplaceKeepsOthers(Stage(s, m, k - 1), Mark(k - 1), Value(m, k - 1), Mark(i));
    }
  }

  ghost predicate NoneJoinsBefore(s: string, m: Member, k: nat) {
    forall j: Index :: j < k ==> NoneJoins(Pieces(s), m, j)
  }

  lemma {:induction false} StagesFill(s: string, m: Member, k: nat)
    requires k <= 4 && NoneJoinsBefore(s, m, k)
    ensures Stage(s, m, k) == Filled(s, m, k)
  {
    if k == 0 {
      NothingFilled(s, m);
    } else {
      StagesFill(s, m, k - 1);
      ReplaceFills(Pieces(s), m, k - 1);
    }
  }

  lemma StageBraces(s: string, m: Member, j: Index)
    requires ValuesBraceFree(m)
    ensures Braces(Stage(s, m, j + 1)) + Occ(Stage(s, m, j), Mark(j)) == Braces(Stage(s, m, j))
  {
    MarksAre(j, j);
    ReplaceCostsBraces(Stage(s, m, j), Mark(j), Value(m, j));
  }

  lemma FilledBraces(s: string, m: Member, j: Index)
    requires ValuesBraceFree(m)
    ensures Braces(Filled(s, m, j + 1)) + Slots(Pieces(s), j) == Braces(Filled(s, m, j))
  {
    FillingCostsBraces(Pieces(s), m, j);
  }

  lemma PlaceholdersAreHit(s: string, m: Member, j: Index)
    requires ValuesBraceFree(m)
    ensures Occ(Stage(s, m, j), Mark(j)) >= Slots(Pieces(s), j)
  {
    LaterMarksSurvive(s, m, j, j);
    SlotsAreOccurrences(s, j);
  }

  lemma NoExtraNoJoin(pieces: seq<Piece>, m: Member, j: Index, text: string)
    requires ValuesBraceFree(m) && text == Rendered(pieces, m, j)
    requires Occ(text, Mark(j)) == Slots(pieces, j)
    ensures NoneJoins(pieces, m, j)
  {
    JoinsAreExtra(pieces, m, j);
  }

  lemma NothingElseIsHit(s: string, m: Member, j: Index)
    requires ValuesBraceFree(m) && NoneJoinsBefore(s, m, j)
    requires Occ(Stage(s, m, j), Mark(j)) == Slots(Pieces(s), j)
    ensures NoneJoinsBefore(s, m, j + 1)
  {
    StagesFill(s, m, j);
    NoExtraNoJoin(Pieces(s), m, j, Stage(s, m, j));
  }

  /** Replacing never keeps more braces than filling in, and as many only if nothing joined. */
  lemma {:induction false} JoinsCostBraces(s: string, m: Member, k: nat)
    requires ValuesBraceFree(m) && k <= 4
    ensures Braces(Stage(s, m, k)) <= Braces(Filled(s, m, k))
    ensures Braces(Stage(s, m, k)) == Braces(Filled(s, m, k)) ==> NoneJoinsBefore(s, m, k)
  {
    if k == 0 {
      NothingFilled(s, m);
    } else {
      JoinsCostBraces(s, m, k - 1);
      StageBraces(s, m, k - 1);
      FilledBraces(s, m, k - 1);
      PlaceholdersAreHit(s, m, k - 1);
      if Braces(Stage(s, m, k)) == Braces(Filled(s, m, k)) {
        NothingElseIsHit(s, m, k - 1);
      }
    }
  }

  /** At no stage does anything but a placeholder of the token begin the next mark. */
  ghost predicate NothingJoins(s: string, m: Member) {
    NoneJoinsBefore(s, m, 4)
  }

  /** Whatever the values: if nothing joins, filling in one after the other comes to the same
      as filling in all at once. */
  lemma FillingIsSimultaneous(s: string, m: Member)
    requires NothingJoins(s, m)
    ensures Expand(s, m) == Filled(s, m, 4)
  {
    ExpandIsStage(s, m);
    StagesFill(s, m, 4);
  }

  lemma SameTextJoinsNothing(s: string, m: Member)
    requires ValuesBraceFree(m) && Stage(s, m, 4) == Filled(s, m, 4)
    ensures NothingJoins(s, m)
  {
    JoinsCostBraces(s, m, 4);
  }

  /** With values that hold no opening brace, exactly then. */
  lemma SimultaneousExactlyWhenNothingJoins(s: string, m: Member)
    requires ValuesBraceFree(m)
    ensures Expand(s, m) == Filled(s, m, 4) <==> NothingJoins(s, m)
  {
    ExpandIsStage(s, m);
    if NothingJoins(s, m) {
      FillingIsSimultaneous(s, m);
    }
    if Stage(s, m, 4) == Filled(s, m, 4) {
      SameTextJoinsNothing(s, m);
    }
  }

  /** Every opening brace of the token begins a placeholder. */
  ghost predicate NoStrayBrace(s: string) {
    forall k :: 0 <= k < |s| && s[k] == '{' ==> Opening(s[k..]).Some?
  }

  lemma NoStrayBraceLater(s: string, n: nat)
    requires NoStrayBrace(s) && n <= |s|
    ensures NoStrayBrace(s[n..])
  {
    forall k | 0 <= k < |s[n..]| && s[n..][k] == '{'
      ensures Opening(s[n..][k..]).Some?
    {
      assert s[n..][k..] == s[n + k..];
    }
  }

  lemma {:induction false} NothingToJoin(s: string, m: Member, j: Index)
    requires NoStrayBrace(s) && ValuesBraceFree(m)
    ensures NoneJoins(Pieces(s), m, j)
    decreases |s|
  {
    if s != "" {
      var o := Opening(s);
      var n := if o.Some? then |Mark(o.value)| else 1;
      var rest := Rendered(Pieces(s[n..]), m, j);
      NoStrayBraceLater(s, n);
      NothingToJoin(s[n..], m, j);
      NoneJoinsFrom(Pieces(s), m, j);
      MarksAre(j, j);
      if o.Some? {
        BraceFreeIsQuiet(Value(m, o.value), rest, Mark(j));
      } else {
        assert s[0..] == s;
        BraceFreeIsQuiet([s[0]], rest, Mark(j));
      }
    }
  }

  /** In particular for a token without stray braces. */
  lemma NoStrayBraceIsEnough(s: string, m: Member)
    requires NoStrayBrace(s) && ValuesBraceFree(m)
    ensures Expand(s, m) == Filled(s, m, 4)
  {
    forall j: Index
      ensures NoneJoins(Pieces(s), m, j)
    {
      NothingToJoin(s, m, j);
    }
    assert NothingJoins(s, m);
    FillingIsSimultaneous(s, m);
  }

  // ----- a stray brace -----

  lemma PiecesAtMark(i: Index, r: string)
    ensures Pieces(Mark(i) + r) == [Slot(i)] + Pieces(r)
  {
    StartsWith(Mark(i), r);
    forall j: Index | j != i
      ensures !Starts(Mark(i) + r, Mark(j))
    {
      MarksAre(i, j);
      OtherMarkIsQuiet(Mark(i), r, Mark(j));
      assert Mark(i)[0..] == Mark(i);
    }
  }

  /** A character that is no opening brace, or is followed by one, begins no placeholder. */
  lemma BeginsNone(c: char, r: string, i: Index)
    requires c != '{' || (r != "" && r[0] == '{')
    ensures !Starts([c] + r, Mark(i))
  {
    MarkShape(i);
    var t, mark := [c] + r, Mark(i);
    assert mark[1] in mark[1..];
    assert |mark| <= |t| ==> t[..|mark|][0] == t[0] && t[..|mark|][1] == t[1];
  }

  lemma PiecesAtPlain(c: char, r: string)
    requires c != '{' || (r != "" && r[0] == '{')
    ensures Pieces([c] + r) == [Plain(c)] + Pieces(r)
  {
    forall i: Index
      ensures !Starts([c] + r, Mark(i))
    {
      BeginsNone(c, r, i);
    }
    assert ([c] + r)[1..] == r;
  }

  /** Text around a placeholder that is not the next one is left alone. */
  lemma ReplacePasses(open: string, mid: string, close: string, j: Index, to: string)
    requires Quiet(open, mid + close, Mark(j)) && Quiet(mid, close, Mark(j)) && BraceFree(close)
    ensures Replace(open + (mid + close), Mark(j), to) == open + (mid + close)
  {
    MarkShape(j);
    ReplaceSkips(open, mid + close, Mark(j), to);
    ReplaceSkips(mid, close, Mark(j), to);
    BraceFreeIsQuiet(close, "", Mark(j));
    ReplaceSkips(close, "", Mark(j), to);
    assert close + "" == close;
  }

  lemma BraceBeforeMarkIsQuiet(i: Index, r: string, j: Index)
    ensures Quiet("{", Mark(i) + r, Mark(j))
  {
    MarkShape(i);
    BeginsNone('{', Mark(i) + r, j);
    QuietOne('{', Mark(i) + r, Mark(j));
  }

  /** A stray brace can join a value to form a placeholder that neither of them holds: a
      device named `hostname` turns the token `{{name}}` into its host name. */
  lemma StrayBracesJoin(m: Member)
    requires m.givenName == Some("hostname") && ValuesBraceFree(m)
    ensures Filled("{" + (Mark(1) + "}"), m, 4) == Mark(2)
    ensures Expand("{" + (Mark(1) + "}"), m) == Value(m, 2)
  {
    StrayFilled(m);
    StrayExpanded(m);
  }

  lemma RenderedFrom(p: Piece, rest: seq<Piece>, m: Member, done: nat)
    ensures Rendered([p] + rest, m, done) == Shown(p, m, done) + Rendered(rest, m, done)
  {
    assert ([p] + rest)[1..] == rest;
  }

  lemma FilledAtPlain(c: char, r: string, m: Member)
    requires c != '{' || (r != "" && r[0] == '{')
    ensures Filled([c] + r, m, 4) == [c] + Filled(r, m, 4)
  {
    PiecesAtPlain(c, r);
    RenderedFrom(Plain(c), Pieces(r), m, 4);
  }

  lemma FilledAtMark(i: Index, r: string, m: Member)
    ensures Filled(Mark(i) + r, m, 4) == Value(m, i) + Filled(r, m, 4)
  {
    PiecesAtMark(i, r);
    RenderedFrom(Slot(i), Pieces(r), m, 4);
  }

  lemma NothingAfter(s: string)
    ensures s + "" == s
  {
  }

  lemma JoinedName()
    ensures "{" + ("hostname" + "}") == Mark(2)
  {
  }

  lemma StrayFilled(m: Member)
    requires m.givenName == Some("hostname")
    ensures Filled("{" + (Mark(1) + "}"), m, 4) == Mark(2)
  {
    MarkShape(1);
    FilledAtPlain('{', Mark(1) + "}", m);
    FilledAtMark(1, "}", m);
    FilledAtPlain('}', "", m);
    assert Filled("", m, 4) == "";
    NothingAfter("}");
    JoinedName();
  }

  lemma StrayAddress(m: Member)
    ensures Replace("{" + (Mark(1) + "}"), Mark(0), Value(m, 0)) == "{" + (Mark(1) + "}")
  {
    MarksAre(1, 0);
    BraceBeforeMarkIsQuiet(1, "}", 0);
    OtherMarkIsQuiet(Mark(1), "}", Mark(0));
    ReplacePasses("{", Mark(1), "}", 0, Value(m, 0));
  }

  lemma StrayName(m: Member)
    requires m.givenName == Some("hostname")
    ensures Replace("{" + (Mark(1) + "}"), Mark(1), Value(m, 1)) == Mark(2)
  {
    MarkShape(1);
    BraceBeforeMarkIsQuiet(1, "}", 1);
    ReplaceSkips("{", Mark(1) + "}", Mark(1), Value(m, 1));
    ReplaceHits(Mark(1), "}", Value(m, 1));
    BraceFreeIsQuiet("}", "", Mark(1));
    ReplaceSkips("}", "", Mark(1), Value(m, 1));
    NothingAfter("}");
    JoinedName();
  }

  lemma MarkAlone(i: Index, to: string)
    ensures Replace(Mark(i), Mark(i), to) == to
  {
    ReplaceHits(Mark(i), "", to);
    assert Mark(i) + "" == Mark(i) && to + "" == to;
  }

  lemma NoMarkInside(text: string, i: Index, to: string)
    requires BraceFree(text)
    ensures Replace(text, Mark(i), to) == text
  {
    MarkShape(i);
    BraceFreeIsQuiet(text, "", Mark(i));
    ReplaceSkips(text, "", Mark(i), to);
    assert text + "" == text;
  }

  lemma StrayExpanded(m: Member)
    requires m.givenName == Some("hostname") && ValuesBraceFree(m)
    ensures Expand("{" + (Mark(1) + "}"), m) == Value(m, 2)
  {
    StrayAddress(m);
    StrayName(m);
    MarkAlone(2, Value(m, 2));
    NoMarkInside(Value(m, 2), 3, Value(m, 3));
  }

  // ----- what each placeholder stands for -----

  /** A lone placeholder becomes the address or nothing; the given name, else the host name,
      else the first eight characters of the id; the host name or nothing; the id. */
  lemma WhatPlaceholdersBecome(m: Member)
    requires ValuesBraceFree(m)
    ensures Expand("{ip}", m) == match m.virtualIp { case Some(ip) => ip case None => "" }
    ensures Expand("{name}", m)
            == if m.givenName.Some? then m.givenName.value
               else if m.hostname.Some? then m.hostname.value
               else if |m.nodeId| >= 8 then m.nodeId[..8]
               else m.nodeId
    ensures Expand("{hostname}", m) == match m.hostname { case Some(host) => host case None => "" }
    ensures Expand("{node_id}", m) == m.nodeId
  {
    LonePlaceholder(0, m);
    LonePlaceholder(1, m);
    LonePlaceholder(2, m);
    LonePlaceholder(3, m);
  }

  lemma LonePlaceholder(i: Index, m: Member)
    requires ValuesBraceFree(m)
    ensures Expand(Mark(i), m) == Value(m, i)
  {
    NothingAfter(Mark(i));
    NothingAfter(Value(m, i));
    PiecesAtMark(i, "");
    FilledAtMark(i, "", m);
    forall j: Index
      ensures NoneJoins(Pieces(Mark(i)), m, j)
    {
      LoneJoinsNothing(i, m, j);
    }
    FillingIsSimultaneous(Mark(i), m);
  }

  lemma LoneJoinsNothing(i: Index, m: Member, j: Index)
    requires ValuesBraceFree(m)
    ensures NoneJoins([Slot(i)], m, j)
  {
    MarkShape(j);
    BraceFreeIsQuiet(Value(m, i), "", Mark(j));
    NoneJoinsFrom([Slot(i)], m, j);
  }
}
