/**
 The peak-table scanner of `extract_table_from_text`.

 The source applies the regular expression

   (A1a|A1b|LA1c|A1c|P3|P4|Ao)\s+(---|\d+\.\d+)\s+(---|\d+\.\d+)\s+(\d+\.\d+)\s+(\d+)

 with `findall` to the page text. Here the expression is both stated
 declaratively (IsRowMatch: where the five groups and four separators lie)
 and matched operationally (MatchAt: each piece taken as long as
 possible, no backtracking). MatchAtComplete shows the operational
 matcher finds every declarative match, so the maximal-munch reading
 loses nothing against a backtracking regex engine; FindAll is then the
 left-to-right `findall` scan, characterised by IsScan.
 */
module PdfExtractor {
  import opened Basics
  import opened Numbers
  import opened Tables

  /** The peak-name alternatives, in the order the alternation tries them. */
  const PeakNames: seq<string> := ["A1a", "A1b", "LA1c", "A1c", "P3", "P4", "Ao"]

  /** The instrument's marker for a missing value. */
  const Dash: string := "---"

  /** The labels of the five DataFrame columns, in order. */
  const TableColumns: seq<string> := ["Peak Name", "NGSP %", "Area %", "Retention Time (min)", "Peak Area"]

  /**
   Python's `\s` on str patterns: the characters `str.isspace` accepts
   (ASCII whitespace, the separators 0x1C-0x1F, NEL, NBSP and the Unicode
   space separators), newlines included.
   */
  predicate IsSpace(c: char) {
    var n := c as int;
    n == 0x20 || 0x09 <= n <= 0x0D || 0x1C <= n <= 0x1F || n == 0x85 || n == 0xA0
    || n == 0x1680 || 0x2000 <= n <= 0x200A || n == 0x2028 || n == 0x2029
    || n == 0x202F || n == 0x205F || n == 0x3000
  }

  datatype CharClass = Space | Digit

  predicate InClass(c: char, k: CharClass) {
    match k
    case Space => IsSpace(c)
    case Digit => IsDigit(c)
  }

  /** Every character of `s[lo..hi]` is in class `k`. */
  predicate AllIn(s: string, lo: nat, hi: nat, k: CharClass)
    requires lo <= hi <= |s|
  {
    forall p :: lo <= p < hi ==> InClass(s[p], k)
  }

  /** `s[lo..hi]` is `\d+\.\d+`. */
  ghost predicate DecimalSpan(s: string, lo: nat, hi: nat)
    requires lo <= hi <= |s|
  {
    exists d :: lo < d < hi - 1 && s[d] == '.' && AllIn(s, lo, d, Digit) && AllIn(s, d + 1, hi, Digit)
  }

  /** `s[lo..hi]` is `---|\d+\.\d+`. */
  ghost predicate FieldSpan(s: string, lo: nat, hi: nat)
    requires lo <= hi <= |s|
  {
    s[lo..hi] == Dash || DecimalSpan(s, lo, hi)
  }

  /**
   One match of the row pattern: where each group starts and ends. The
   separators are the gaps between consecutive groups.
   */
  datatype Match = Match(
    start: nat, nameEnd: nat,
    ngspStart: nat, ngspEnd: nat,
    areaStart: nat, areaEnd: nat,
    retStart: nat, retEnd: nat,
    peakStart: nat, end: nat)

  predicate Ordered(m: Match, n: nat) {
    m.start < m.nameEnd < m.ngspStart < m.ngspEnd < m.areaStart < m.areaEnd
    < m.retStart < m.retEnd < m.peakStart < m.end <= n
  }

  /** `s[m.start..m.end]` matches the row pattern with the groups where `m` puts them. */
  ghost predicate IsRowMatch(s: string, m: Match) {
    && Ordered(m, |s|)
    && s[m.start..m.nameEnd] in PeakNames
    && AllIn(s, m.nameEnd, m.ngspStart, Space)
    && FieldSpan(s, m.ngspStart, m.ngspEnd)
    && AllIn(s, m.ngspEnd, m.areaStart, Space)
    && FieldSpan(s, m.areaStart, m.areaEnd)
    && AllIn(s, m.areaEnd, m.retStart, Space)
    && DecimalSpan(s, m.retStart, m.retEnd)
    && AllIn(s, m.retEnd, m.peakStart, Space)
    && AllIn(s, m.peakStart, m.end, Digit)
  }

  /** The greedy final `\d+` stops only where the digits do. */
  predicate Greedy(s: string, m: Match)
    requires m.end <= |s|
  {
    m.end == |s| || !IsDigit(s[m.end])
  }

  // ---------------------------------------------------------------------
  // Matching the pieces of the pattern

  /** End of the longest run of class-`k` characters starting at `i`. */
  function RunEnd(s: string, i: nat, k: CharClass): (j: nat)
    requires i <= |s|
    ensures i <= j <= |s|
    ensures AllIn(s, i, j, k)
    ensures j == |s| || !InClass(s[j], k)
    decreases |s| - i
  {
    if i < |s| && InClass(s[i], k) then RunEnd(s, i + 1, k) else i
  }

  /** A class-`k` run ending at `e` before a character outside the class is the run RunEnd finds. */
  lemma RunEndExact(s: string, i: nat, e: nat, k: CharClass)
    requires i <= e <= |s| && AllIn(s, i, e, k)
    requires e == |s| || !InClass(s[e], k)
    ensures RunEnd(s, i, k) == e
  {
  }

  /** `\s+` or `\d+` at `i`: where the (non-empty, maximal) run ends. */
  function Run(s: string, i: nat, k: CharClass): (r: Option<nat>)
    requires i <= |s|
    ensures r.Some? ==> i < r.value <= |s| && AllIn(s, i, r.value, k)
    ensures r.Some? ==> r.value == |s| || !InClass(s[r.value], k)
    ensures r.None? <==> i == |s| || !InClass(s[i], k)
  {
    var j := RunEnd(s, i, k);
    if j > i then Some(j) else None
  }

  /** `\d+\.\d+` at `i`: each digit run is taken whole. */
  function Decimal(s: string, i: nat): (r: Option<nat>)
    requires i <= |s|
    ensures r.Some? ==> i < r.value <= |s| && DecimalSpan(s, i, r.value)
    ensures r.Some? ==> r.value == |s| || !IsDigit(s[r.value])
  {
    var d :- Run(s, i, Digit);
    if d < |s| && s[d] == '.' then
      var e :- Run(s, d + 1, Digit);
      Some(e)
    else None
  }

  /** A `\d+\.\d+` span that is not followed by a digit is the one Decimal finds. */
  lemma DecimalExact(s: string, i: nat, e: nat)
    requires i <= e <= |s| && DecimalSpan(s, i, e)
    requires e == |s| || !IsDigit(s[e])
    ensures Decimal(s, i) == Some(e)
  {
    var d :| i < d < e - 1 && s[d] == '.' && AllIn(s, i, d, Digit) && AllIn(s, d + 1, e, Digit);
    RunEndExact(s, i, d, Digit);
    RunEndExact(s, d + 1, e, Digit);
  }

  /** `---|\d+\.\d+` at `i`. */
  function Field(s: string, i: nat): (r: Option<nat>)
    requires i <= |s|
    ensures r.Some? ==> i < r.value <= |s| && FieldSpan(s, i, r.value)
  {
    if OccursAt(s, i, Dash) then Some(i + |Dash|) else Decimal(s, i)
  }

  /** A field followed by whitespace is the one Field finds. */
  lemma FieldExact(s: string, i: nat, e: nat)
    requires i <= e < |s| && FieldSpan(s, i, e) && IsSpace(s[e])
    ensures Field(s, i) == Some(e)
  {
    if s[i..e] == Dash {
      assert OccursAt(s, i, Dash);
    } else {
      var d :| i < d < e - 1 && s[d] == '.' && AllIn(s, i, d, Digit) && AllIn(s, d + 1, e, Digit);
      assert IsDigit(s[i]);
      DecimalExact(s, i, e);
    }
  }

  /** The first peak-name alternative that occurs at `i`. */
  function PeakNameAt(s: string, i: nat): (r: Option<string>)
    ensures r.Some? ==> r.value in PeakNames && OccursAt(s, i, r.value)
  {
    FirstOccurring(s, i, PeakNames)
  }

  function FirstOccurring(s: string, i: nat, alternatives: seq<string>): (r: Option<string>)
    ensures r.Some? ==> r.value in alternatives && OccursAt(s, i, r.value)
    ensures r.None? ==> forall t :: t in alternatives ==> !OccursAt(s, i, t)
    decreases |alternatives|
  {
    if |alternatives| == 0 then None
    else if OccursAt(s, i, alternatives[0]) then Some(alternatives[0])
    else FirstOccurring(s, i, alternatives[1..])
  }

  /** No peak name is a prefix of another, so at most one occurs at any position. */
  lemma PeakNamesExclusive(s: string, i: nat, t: string, u: string)
    requires t in PeakNames && u in PeakNames && OccursAt(s, i, t) && OccursAt(s, i, u)
    ensures t == u
  {
    if |t| <= |u| {
      assert u[..|t|] == s[i..i + |t|];
      PeakNamesPrefixFree(t, u);
    } else {
      assert t[..|u|] == s[i..i + |u|];
      PeakNamesPrefixFree(u, t);
    }
  }

  lemma PeakNamesPrefixFree(t: string, u: string)
    requires t in PeakNames && u in PeakNames && |t| <= |u| && u[..|t|] == t
    ensures t == u
  {
    assert u[0] == t[0] && u[1] == t[1];
    if |t| == |u| {
      assert u == u[..|t|];
    }
  }

  /** A peak name at `i` is the one PeakNameAt finds. */
  lemma PeakNameExact(s: string, i: nat, t: string)
    requires t in PeakNames && OccursAt(s, i, t)
    ensures PeakNameAt(s, i) == Some(t)
  {
    var r := PeakNameAt(s, i);
    if r.Some? {
      PeakNamesExclusive(s, i, t, r.value);
    }
  }

  // ---------------------------------------------------------------------
  // One match attempt

  /**
   The pattern read as a sequence of pieces, each matched as long as
   possible: a peak name, whitespace, an NGSP field, whitespace, an area
   field, whitespace, a retention time, whitespace, a peak area.
   */
  datatype Piece = Name | Gap | FieldGroup | DecimalGroup | DigitsGroup

  const RowPieces: seq<Piece> :=
    [Name, Gap, FieldGroup, Gap, FieldGroup, Gap, DecimalGroup, Gap, DigitsGroup]

  /** `s[lo..hi]` is a non-empty text the piece `p` matches. */
  ghost predicate PieceSpan(s: string, lo: nat, hi: nat, p: Piece)
    requires lo <= hi <= |s|
  {
    match p
    case Name => s[lo..hi] in PeakNames
    case Gap => lo < hi && AllIn(s, lo, hi, Space)
    case FieldGroup => FieldSpan(s, lo, hi)
    case DecimalGroup => DecimalSpan(s, lo, hi)
    case DigitsGroup => lo < hi && AllIn(s, lo, hi, Digit)
  }

  /**
   Consecutive pieces `ps`, the first starting at `i`, end at the
   positions `ends`: each piece is a non-empty span of the text.
   */
  ghost predicate PiecesSpan(s: string, i: nat, ends: seq<nat>, ps: seq<Piece>)
    decreases |ps|
  {
    && |ends| == |ps|
    && (|ps| > 0 ==>
      && i < ends[0] <= |s|
      && PieceSpan(s, i, ends[0], ps[0])
      && PiecesSpan(s, ends[0], ends[1..], ps[1..]))
  }

  /** Where the peak name at `i` ends. */
  function NameEnd(s: string, i: nat): (r: Option<nat>)
    requires i <= |s|
    ensures r.Some? ==> i < r.value <= |s| && s[i..r.value] in PeakNames
  {
    var name :- PeakNameAt(s, i);
    assert s[i..i + |name|] == name;
    Some(i + |name|)
  }

  /** The piece `p` at `i`, taken as long as possible: where it ends. */
  function PieceAt(s: string, i: nat, p: Piece): (r: Option<nat>)
    requires i <= |s|
    ensures r.Some? ==> i < r.value <= |s| && PieceSpan(s, i, r.value, p)
  {
    match p
    case Name => NameEnd(s, i)
    case Gap => Run(s, i, Space)
    case FieldGroup => Field(s, i)
    case DecimalGroup => Decimal(s, i)
    case DigitsGroup => Run(s, i, Digit)
  }

  /** The pieces `ps` in turn from `i`, each as long as possible: where each ends. */
  function MatchPieces(s: string, i: nat, ps: seq<Piece>): (r: Option<seq<nat>>)
    requires i <= |s|
    ensures r.Some? ==> |r.value| == |ps| && PiecesSpan(s, i, r.value, ps)
    ensures r.Some? && |r.value| == |ps| > 0 && ps[|ps| - 1] == DigitsGroup ==>
      var e := r.value[|ps| - 1]; e < |s| ==> !IsDigit(s[e])
    decreases |ps|
  {
    if |ps| == 0 then Some([])
    else
      var e :- PieceAt(s, i, ps[0]);
      var rest :- MatchPieces(s, e, ps[1..]);
      assert ([e] + rest)[1..] == rest;
      Some([e] + rest)
  }

  /**
   The match attempt at position `i`: each piece of the pattern in turn,
   each taken as long as possible.
   */
  function MatchAt(s: string, i: nat): (r: Option<Match>)
    requires i <= |s|
    ensures r.Some? ==> r.value.start == i && Ordered(r.value, |s|) && Greedy(s, r.value)
  {
    var e :- MatchPieces(s, i, RowPieces);
    PiecesOrdered(s, i, e, RowPieces);
    Some(FromEnds(i, e))
  }

  /** The match starting at `i` whose pieces end at `e`. */
  function FromEnds(i: nat, e: seq<nat>): (m: Match)
    requires |e| == 9
    ensures m.start == i && Ends(m) == e
  {
    Match(i, e[0], e[1], e[2], e[3], e[4], e[5], e[6], e[7], e[8])
  }

  /** The ends of spanning pieces increase strictly and stay within the text. */
  lemma {:induction false} PiecesOrdered(s: string, i: nat, ends: seq<nat>, ps: seq<Piece>)
    requires PiecesSpan(s, i, ends, ps)
    ensures forall k :: 0 <= k < |ends| ==> i < ends[k] <= |s|
    ensures forall k, j :: 0 <= k < j < |ends| ==> ends[k] < ends[j]
    decreases |ps|
  {
    if |ps| > 0 {
      var tail := ends[1..];
      PiecesOrdered(s, ends[0], tail, ps[1..]);
      forall k | 0 < k < |ends|
        ensures ends[0] < ends[k]
      {
        assert ends[k] == tail[k - 1];
      }
      forall k, j | 0 < k < j < |ends|
        ensures ends[k] < ends[j]
      {
        assert ends[k] == tail[k - 1] && ends[j] == tail[j - 1];
      }
    }
  }

  /** The piece ends of a match, in order. */
  function Ends(m: Match): seq<nat> {
    [m.nameEnd, m.ngspStart, m.ngspEnd, m.areaStart, m.areaEnd, m.retStart, m.retEnd, m.peakStart, m.end]
  }

  /** A match of the pattern is exactly a span of the pattern's pieces. */
  lemma RowMatchIsPieces(s: string, m: Match)
    ensures IsRowMatch(s, m) <==> PiecesSpan(s, m.start, Ends(m), RowPieces)
  {
    RowPiecesUnfold(s, m);
    TailPiecesUnfold(s, m);
  }

  lemma PiecesAreRowMatch(s: string, m: Match)
    requires PiecesSpan(s, m.start, Ends(m), RowPieces)
    ensures IsRowMatch(s, m)
  {
    RowMatchIsPieces(s, m);
  }

  lemma RowMatchArePieces(s: string, m: Match)
    requires IsRowMatch(s, m)
    ensures PiecesSpan(s, m.start, Ends(m), RowPieces)
  {
    RowMatchIsPieces(s, m);
  }

  /** PiecesSpan over the row pattern, unfolded piece by piece. */
  lemma RowPiecesUnfold(s: string, m: Match)
    ensures PiecesSpan(s, m.start, Ends(m), RowPieces) <==>
      && m.start < m.nameEnd <= |s| && PieceSpan(s, m.start, m.nameEnd, Name)
      && m.nameEnd < m.ngspStart <= |s| && PieceSpan(s, m.nameEnd, m.ngspStart, Gap)
      && m.ngspStart < m.ngspEnd <= |s| && PieceSpan(s, m.ngspStart, m.ngspEnd, FieldGroup)
      && m.ngspEnd < m.areaStart <= |s| && PieceSpan(s, m.ngspEnd, m.areaStart, Gap)
      && TailPieces(s, m)
  {
    var e4, p4 := TailEnds(m), TailPieceKinds;
    var e3, p3 := [m.areaStart] + e4, [Gap] + p4;
    var e2, p2 := [m.ngspEnd] + e3, [FieldGroup] + p3;
    var e1, p1 := [m.ngspStart] + e2, [Gap] + p2;
    var e0, p0 := [m.nameEnd] + e1, [Name] + p1;
    assert e0 == Ends(m) && p0 == RowPieces;
    PiecesSpanCons(s, m.start, m.nameEnd, e1, Name, p1);
    PiecesSpanCons(s, m.nameEnd, m.ngspStart, e2, Gap, p2);
    PiecesSpanCons(s, m.ngspStart, m.ngspEnd, e3, FieldGroup, p3);
    PiecesSpanCons(s, m.ngspEnd, m.areaStart, e4, Gap, p4);
  }

  /** The last five piece ends of a match, from the area field on. */
  function TailEnds(m: Match): seq<nat> {
    [m.areaEnd, m.retStart, m.retEnd, m.peakStart, m.end]
  }

  const TailPieceKinds: seq<Piece> := [FieldGroup, Gap, DecimalGroup, Gap, DigitsGroup]

  /** The area field, the retention time, the peak area and the gaps between them. */
  ghost predicate TailPieces(s: string, m: Match) {
    PiecesSpan(s, m.areaStart, TailEnds(m), TailPieceKinds)
  }

  lemma TailPiecesUnfold(s: string, m: Match)
    ensures TailPieces(s, m) <==>
      && m.areaStart < m.areaEnd <= |s| && PieceSpan(s, m.areaStart, m.areaEnd, FieldGroup)
      && m.areaEnd < m.retStart <= |s| && PieceSpan(s, m.areaEnd, m.retStart, Gap)
      && m.retStart < m.retEnd <= |s| && PieceSpan(s, m.retStart, m.retEnd, DecimalGroup)
      && m.retEnd < m.peakStart <= |s| && PieceSpan(s, m.retEnd, m.peakStart, Gap)
      && m.peakStart < m.end <= |s| && PieceSpan(s, m.peakStart, m.end, DigitsGroup)
  {
    var e8, p8 := [m.end], [DigitsGroup];
    var e7, p7 := [m.peakStart] + e8, [Gap] + p8;
    var e6, p6 := [m.retEnd] + e7, [DecimalGroup] + p7;
    var e5, p5 := [m.retStart] + e6, [Gap] + p6;
    var e4, p4 := [m.areaEnd] + e5, [FieldGroup] + p5;
    assert e4 == TailEnds(m) && p4 == TailPieceKinds;
    PiecesSpanCons(s, m.areaStart, m.areaEnd, e5, FieldGroup, p5);
    PiecesSpanCons(s, m.areaEnd, m.retStart, e6, Gap, p6);
    PiecesSpanCons(s, m.retStart, m.retEnd, e7, DecimalGroup, p7);
    PiecesSpanCons(s, m.retEnd, m.peakStart, e8, Gap, p8);
    PiecesSpanCons(s, m.peakStart, m.end, [], DigitsGroup, []);
  }

  /** PiecesSpan with one piece in front, unfolded once. */
  lemma PiecesSpanCons(s: string, i: nat, a: nat, ends: seq<nat>, p: Piece, ps: seq<Piece>)
    requires |ends| == |ps|
    ensures PiecesSpan(s, i, [a] + ends, [p] + ps) <==>
      i < a <= |s| && PieceSpan(s, i, a, p) && PiecesSpan(s, a, ends, ps)
  {
    assert ([a] + ends)[1..] == ends && ([p] + ps)[1..] == ps;
  }

  /** The row pattern's pieces alternate and end in digits. */
  lemma RowPiecesAlternate()
    ensures |RowPieces| == 9 && RowPieces[8] == DigitsGroup && Alternating(RowPieces)
  {
  }

  /** Whatever MatchAt finds really is a match of the pattern. */
  lemma MatchAtSound(s: string, i: nat)
    requires i <= |s| && MatchAt(s, i).Some?
    ensures IsRowMatch(s, MatchAt(s, i).value)
  {
    MatchAtEnds(s, i);
    PiecesAreRowMatch(s, MatchAt(s, i).value);
  }

  /** The ends of a match MatchAt finds are those of the pieces MatchPieces finds. */
  lemma MatchAtEnds(s: string, i: nat)
    requires i <= |s| && MatchAt(s, i).Some?
    ensures MatchAt(s, i).value.start == i
    ensures PiecesSpan(s, i, Ends(MatchAt(s, i).value), RowPieces)
  {
  }

  /** Whitespace and non-whitespace pieces alternate, so each piece's end is forced. */
  predicate Alternating(ps: seq<Piece>) {
    forall k :: 0 <= k < |ps| - 1 ==> (ps[k] == Gap <==> ps[k + 1] != Gap)
  }

  /** A piece followed by a piece of the other kind is exactly the one PieceAt finds. */
  lemma PieceExact(s: string, lo: nat, hi: nat, hi2: nat, p: Piece, q: Piece)
    requires lo <= hi <= hi2 <= |s| && PieceSpan(s, lo, hi, p) && PieceSpan(s, hi, hi2, q)
    requires p == Gap <==> q != Gap
    ensures PieceAt(s, lo, p) == Some(hi)
  {
    match p
    case Name =>
      PeakNameExact(s, lo, s[lo..hi]);
    case Gap =>
      PieceStartsTight(s, hi, hi2, q);
      RunEndExact(s, lo, hi, Space);
    case FieldGroup =>
      PieceStartsTight(s, lo, hi, p);
      FieldExact(s, lo, hi);
    case DecimalGroup =>
      PieceStartsTight(s, lo, hi, p);
      DecimalExact(s, lo, hi);
    case DigitsGroup =>
      RunEndExact(s, lo, hi, Digit);
  }

  /** Every piece is non-empty, and only whitespace starts with whitespace. */
  lemma PieceStartsTight(s: string, lo: nat, hi: nat, q: Piece)
    requires lo <= hi <= |s| && PieceSpan(s, lo, hi, q)
    ensures lo < hi
    ensures q != Gap ==> !IsSpace(s[lo])
  {
    match q
    case Name =>
      assert s[lo..hi] in PeakNames;
      assert s[lo..hi][0] == s[lo];
    case Gap =>
    case FieldGroup =>
      FieldStartsTight(s, lo, hi);
    case DecimalGroup =>
      DecimalStartsWithDigit(s, lo, hi);
    case DigitsGroup =>
  }

  /** A run of class-`k` characters from `i` to `e` lies inside the maximal run. */
  lemma {:induction false} RunEndCovers(s: string, i: nat, e: nat, k: CharClass)
    requires i <= e <= |s| && AllIn(s, i, e, k)
    ensures RunEnd(s, i, k) >= e
    decreases |s| - i
  {
    if i < e {
      RunEndCovers(s, i + 1, e, k);
    }
  }

  /**
   Wherever alternating pieces ending in digits span the text, MatchPieces
   finds the same ends, except that the final digits may extend further.
   */
  lemma {:induction false} MatchPiecesComplete(s: string, i: nat, ends: seq<nat>, ps: seq<Piece>)
    requires i <= |s| && |ps| > 0 && PiecesSpan(s, i, ends, ps) && Alternating(ps)
    requires ps[|ps| - 1] == DigitsGroup
    ensures MatchPieces(s, i, ps).Some? && |MatchPieces(s, i, ps).value| == |ps|
    ensures forall k :: 0 <= k < |ps| - 1 ==> MatchPieces(s, i, ps).value[k] == ends[k]
    ensures MatchPieces(s, i, ps).value[|ps| - 1] >= ends[|ps| - 1]
    ensures ends[|ps| - 1] < |s| && !IsDigit(s[ends[|ps| - 1]]) ==>
      MatchPieces(s, i, ps).value[|ps| - 1] == ends[|ps| - 1]
    decreases |ps|
  {
    if |ps| == 1 {
      RunEndCovers(s, i, ends[0], Digit);
      if ends[0] < |s| && !IsDigit(s[ends[0]]) {
        RunEndExact(s, i, ends[0], Digit);
      }
      var e := RunEnd(s, i, Digit);
      assert PieceAt(s, i, ps[0]) == Some(e);
      MatchPiecesStep(s, i, ps, e);
      assert MatchPieces(s, e, ps[1..]) == Some([]);
    } else {
      var tail := ends[1..];
      assert tail[0] == ends[1] && ps[1..][0] == ps[1];
      PieceExact(s, i, ends[0], ends[1], ps[0], ps[1]);
      AlternatingTail(ps);
      assert ps[1..][|ps| - 2] == ps[|ps| - 1];
      MatchPiecesComplete(s, ends[0], tail, ps[1..]);
      MatchPiecesStep(s, i, ps, ends[0]);
      var rest := MatchPieces(s, ends[0], ps[1..]).value;
      forall k | 0 < k < |ps| - 1
        ensures MatchPieces(s, i, ps).value[k] == ends[k]
      {
        assert rest[k - 1] == tail[k - 1];
      }
    }
  }

  /** One step of MatchPieces: the first piece ends at `e`, the rest follow from there. */
  lemma MatchPiecesStep(s: string, i: nat, ps: seq<Piece>, e: nat)
    requires i <= |s| && |ps| > 0 && PieceAt(s, i, ps[0]) == Some(e)
    ensures e <= |s|
    ensures MatchPieces(s, i, ps) ==
      if MatchPieces(s, e, ps[1..]).Some? then Some([e] + MatchPieces(s, e, ps[1..]).value) else None
  {
  }

  lemma AlternatingTail(ps: seq<Piece>)
    requires |ps| > 0 && Alternating(ps)
    ensures Alternating(ps[1..])
  {
    forall k | 0 <= k < |ps| - 2
      ensures ps[1..][k] == Gap <==> ps[1..][k + 1] != Gap
    {
      assert ps[1..][k] == ps[k + 1] && ps[1..][k + 1] == ps[k + 2];
    }
  }

  /**
   Wherever the pattern matches, MatchAt finds that match: every group
   but the last is forced, and the last `\d+` is extended greedily. So a
   match attempt never needs to backtrack.
   */
  lemma MatchAtComplete(s: string, m: Match)
    requires IsRowMatch(s, m)
    ensures MatchAt(s, m.start).Some?
    ensures MatchAt(s, m.start).value == m.(end := MatchAt(s, m.start).value.end)
    ensures MatchAt(s, m.start).value.end >= m.end
    ensures Greedy(s, m) ==> MatchAt(s, m.start) == Some(m)
  {
    RowMatchArePieces(s, m);
    RowPiecesAlternate();
    MatchPiecesComplete(s, m.start, Ends(m), RowPieces);
    var e := MatchPieces(s, m.start, RowPieces).value;
    assert e[0] == Ends(m)[0] && e[1] == Ends(m)[1] && e[2] == Ends(m)[2] && e[3] == Ends(m)[3];
    assert e[4] == Ends(m)[4] && e[5] == Ends(m)[5] && e[6] == Ends(m)[6] && e[7] == Ends(m)[7];
  }
  /** A decimal span starts with a digit, which is not whitespace. */
  lemma DecimalStartsWithDigit(s: string, lo: nat, hi: nat)
    requires lo <= hi <= |s| && DecimalSpan(s, lo, hi)
    ensures lo < hi && IsDigit(s[lo]) && !IsSpace(s[lo])
  {
  }

  /** A field starts with '-' or a digit, neither of which is whitespace. */
  lemma FieldStartsTight(s: string, lo: nat, hi: nat)
    requires lo <= hi <= |s| && FieldSpan(s, lo, hi)
    ensures lo < hi && !IsSpace(s[lo])
  {
    if s[lo..hi] == Dash {
      assert s[lo..hi][0] == s[lo];
    }
  }

  // ---------------------------------------------------------------------
  // The findall scan

  /**
   A compiled pattern, seen as the match attempt it makes at a position of
   a text. The scan is defined for any pattern, so its properties are
   proved once, independently of how the row pattern matches.
   */
  type Pattern = (string, nat) -> Option<Match>

  /** A pattern's matches start where they are attempted and are non-empty spans of the text. */
  ghost predicate Consistent(pattern: Pattern) {
    forall s: string, p: nat :: pattern(s, p).Some? ==>
      pattern(s, p).value.start == p && Ordered(pattern(s, p).value, |s|)
  }

  /** The row pattern as a Pattern. */
  const RowPattern: Pattern := (s: string, p: nat) => if p <= |s| then MatchAt(s, p) else None

  lemma RowPatternConsistent()
    ensures Consistent(RowPattern)
  {
  }

  /** The row pattern agrees with MatchAt wherever MatchAt is defined. */
  lemma RowPatternIsMatchAt(s: string, p: nat)
    requires p <= |s|
    ensures RowPattern(s, p) == MatchAt(s, p)
  {
  }

  /**
   `pattern.findall(s)` from position `i`: try a match at each position;
   on success record it and resume at its end, otherwise move on by one.
   A result that is not a non-empty span starting at `i` cannot come from
   a consistent pattern and is passed over.
   */
  function FindAll(pattern: Pattern, s: string, i: nat): (ms: seq<Match>)
    requires i <= |s|
    ensures forall k :: 0 <= k < |ms| ==>
      i <= ms[k].start && Ordered(ms[k], |s|) && pattern(s, ms[k].start) == Some(ms[k])
    decreases |s| - i
  {
    if i == |s| then []
    else
      match pattern(s, i)
      case Some(m) =>
        if m.start == i && Ordered(m, |s|) then [m] + FindAll(pattern, s, m.end)
        else FindAll(pattern, s, i + 1)
      case None => FindAll(pattern, s, i + 1)
  }

  /** The pattern matches at position `p`. */
  ghost predicate MatchesAt(pattern: Pattern, s: string, p: nat) {
    pattern(s, p).Some?
  }

  /** Some match in `ms` spans position `p`. */
  ghost predicate Covered(ms: seq<Match>, p: nat) {
    exists k :: 0 <= k < |ms| && ms[k].start <= p < ms[k].end
  }

  /** Every reported span, from `i` on, is the match found at its start. */
  ghost predicate SpansAreMatches(pattern: Pattern, s: string, i: nat, ms: seq<Match>) {
    forall k :: 0 <= k < |ms| ==>
      i <= ms[k].start && Ordered(ms[k], |s|) && pattern(s, ms[k].start) == Some(ms[k])
  }

  /** Reported spans are disjoint and in increasing text position. */
  ghost predicate SpansInOrder(ms: seq<Match>) {
    forall k, j :: 0 <= k < j < |ms| ==> ms[k].end <= ms[j].start
  }

  /** Every position from `i` on where the pattern matches lies within a reported span. */
  ghost predicate MatchesCovered(pattern: Pattern, s: string, i: nat, ms: seq<Match>) {
    forall p {:trigger MatchesAt(pattern, s, p)} :: i <= p <= |s| && MatchesAt(pattern, s, p) ==> Covered(ms, p)
  }

  /**
   What `findall` promises, stated without the scan: every reported span is
   the match at its start, spans are disjoint and in increasing position,
   and every position where the pattern matches lies within a reported span.
   */
  ghost predicate IsScan(pattern: Pattern, s: string, i: nat, ms: seq<Match>) {
    SpansAreMatches(pattern, s, i, ms) && SpansInOrder(ms) && MatchesCovered(pattern, s, i, ms)
  }

  /** The scan meets the declarative description. */
  lemma {:induction false} FindAllIsScan(pattern: Pattern, s: string, i: nat)
    requires i <= |s| && Consistent(pattern)
    ensures IsScan(pattern, s, i, FindAll(pattern, s, i))
    decreases |s| - i
  {
    if i == |s| {
      assert pattern(s, i).None?;
    } else {
      match pattern(s, i)
      case Some(m) =>
        FindAllIsScan(pattern, s, m.end);
        ConsIsScan(pattern, s, i, m, FindAll(pattern, s, m.end));
        assert FindAll(pattern, s, i) == [m] + FindAll(pattern, s, m.end);
      case None =>
        FindAllIsScan(pattern, s, i + 1);
        SkipIsScan(pattern, s, i, FindAll(pattern, s, i + 1));
        assert FindAll(pattern, s, i) == FindAll(pattern, s, i + 1);
    }
  }

  /** A match at `i` followed by a scan from its end is a scan from `i`. */
  lemma ConsIsScan(pattern: Pattern, s: string, i: nat, m: Match, rest: seq<Match>)
    requires pattern(s, i) == Some(m) && m.start == i && Ordered(m, |s|)
    requires IsScan(pattern, s, m.end, rest)
    ensures IsScan(pattern, s, i, [m] + rest)
  {
    var ms := [m] + rest;
    forall k | 0 < k < |ms|
      ensures i <= ms[k].start && Ordered(ms[k], |s|) && pattern(s, ms[k].start) == Some(ms[k])
    {
      assert ms[k] == rest[k - 1];
    }
    forall k, j | 0 <= k < j < |ms|
      ensures ms[k].end <= ms[j].start
    {
      assert ms[j] == rest[j - 1];
      if k > 0 {
        assert ms[k] == rest[k - 1];
      }
    }
    forall p | i <= p <= |s| && MatchesAt(pattern, s, p)
      ensures Covered(ms, p)
    {
      if p < m.end {
        assert ms[0].start <= p < ms[0].end;
      } else {
        assert Covered(rest, p);
        var k :| 0 <= k < |rest| && rest[k].start <= p < rest[k].end;
        assert ms[k + 1] == rest[k];
      }
    }
  }

  /** A position with no match can be skipped. */
  lemma SkipIsScan(pattern: Pattern, s: string, i: nat, ms: seq<Match>)
    requires i < |s| && pattern(s, i).None? && IsScan(pattern, s, i + 1, ms)
    ensures IsScan(pattern, s, i, ms)
  {
  }

  /** Only one sequence of matches meets the description: the scan's. */
  lemma {:induction false} ScanUnique(pattern: Pattern, s: string, i: nat, ms: seq<Match>)
    requires i <= |s| && Consistent(pattern) && IsScan(pattern, s, i, ms)
    ensures ms == FindAll(pattern, s, i)
    decreases |s| - i
  {
    if i == |s| {
      SpansFit(pattern, s, i, ms);
    } else {
      match pattern(s, i)
      case Some(m) =>
        ScanHead(pattern, s, i, m, ms);
        ScanUnique(pattern, s, m.end, ms[1..]);
        assert ms == [m] + ms[1..];
      case None =>
        ScanSkip(pattern, s, i, ms);
        ScanUnique(pattern, s, i + 1, ms);
    }
  }

  /** Disjoint non-empty spans from `i` on number at most the characters left. */
  lemma {:induction false} SpansFit(pattern: Pattern, s: string, i: nat, ms: seq<Match>)
    requires i <= |s| && SpansAreMatches(pattern, s, i, ms) && SpansInOrder(ms)
    ensures |ms| <= |s| - i
    decreases |ms|
  {
    if |ms| > 0 {
      var rest := ms[1..];
      forall k | 0 <= k < |rest|
        ensures ms[0].end <= rest[k].start && Ordered(rest[k], |s|) && pattern(s, rest[k].start) == Some(rest[k])
      {
        assert rest[k] == ms[k + 1];
      }
      forall k, j | 0 <= k < j < |rest|
        ensures rest[k].end <= rest[j].start
      {
        assert rest[k] == ms[k + 1] && rest[j] == ms[j + 1];
      }
      SpansFit(pattern, s, ms[0].end, rest);
    }
  }

  /** Where the pattern matches at `i`, a scan from `i` starts with that match. */
  lemma ScanHead(pattern: Pattern, s: string, i: nat, m: Match, ms: seq<Match>)
    requires i <= |s| && IsScan(pattern, s, i, ms) && pattern(s, i) == Some(m) && m.start == i
    ensures |ms| > 0 && ms[0] == m && IsScan(pattern, s, m.end, ms[1..])
  {
    assert MatchesAt(pattern, s, i);
    var k :| 0 <= k < |ms| && ms[k].start <= i < ms[k].end;
    // every later span starts after the first ends, and the first ends after `i`
    assert i <= ms[0].start && Ordered(ms[0], |s|);
    assert forall j :: 0 < j < |ms| ==> ms[0].end <= ms[j].start;
    assert k == 0;
    ScanTail(pattern, s, i, ms);
  }

  /** What follows the first match of a scan is a scan from that match's end. */
  lemma ScanTail(pattern: Pattern, s: string, i: nat, ms: seq<Match>)
    requires IsScan(pattern, s, i, ms) && |ms| > 0
    ensures IsScan(pattern, s, ms[0].end, ms[1..])
  {
    var rest := ms[1..];
    forall p | ms[0].end <= p <= |s| && MatchesAt(pattern, s, p)
      ensures Covered(rest, p)
    {
      assert Covered(ms, p);
      var j :| 0 <= j < |ms| && ms[j].start <= p < ms[j].end;
      assert j != 0;
      assert rest[j - 1] == ms[j];
    }
    forall j | 0 <= j < |rest|
      ensures ms[0].end <= rest[j].start
    {
      assert rest[j] == ms[j + 1];
    }
  }

  /** Where the pattern does not match at `i`, a scan from `i` is a scan from `i + 1`. */
  lemma ScanSkip(pattern: Pattern, s: string, i: nat, ms: seq<Match>)
    requires i < |s| && IsScan(pattern, s, i, ms) && pattern(s, i).None?
    ensures IsScan(pattern, s, i + 1, ms)
  {
    if |ms| > 0 && ms[0].start == i {
      assert pattern(s, i) == Some(ms[0]);
    }
  }

  // ---------------------------------------------------------------------
  // The DataFrame

  /** The five captured strings of a match, in column order, as text cells. */
  function RowOf(s: string, m: Match): (row: Row)
    requires Ordered(m, |s|)
  {
    [Str(s[m.start..m.nameEnd]), Str(s[m.ngspStart..m.ngspEnd]), Str(s[m.areaStart..m.areaEnd]),
     Str(s[m.retStart..m.retEnd]), Str(s[m.peakStart..m.end])]
  }

  function RowsOf(s: string, ms: seq<Match>): (rows: seq<Row>)
    requires forall k :: 0 <= k < |ms| ==> Ordered(ms[k], |s|)
    ensures |rows| == |ms|
    ensures forall k :: 0 <= k < |ms| ==> rows[k] == RowOf(s, ms[k])
  {
    seq(|ms|, k requires 0 <= k < |ms| => RowOf(s, ms[k]))
  }

  /**
   `extract_table_from_text`: a five-column table with one row per match
   of the row pattern, in text order, or None when the pattern matches
   nowhere.
   */
  function ExtractTable(text: string): (r: Option<Frame>)
    ensures r.Some? ==> r.value.columns == TableColumns && r.value.Valid() && |r.value.rows| > 0
  {
    var ms := FindAll(RowPattern, text, 0);
    if |ms| == 0 then None else Some(Frame(TableColumns, RowsOf(text, ms)))
  }

  /**
   The table is determined by the declarative description of findall:
   for the one sequence of matches that is a scan of the text, the table
   has one row per match, in order.
   */
  lemma ExtractRows(text: string, ms: seq<Match>)
    requires IsScan(RowPattern, text, 0, ms)
    ensures forall k :: 0 <= k < |ms| ==> Ordered(ms[k], |text|)
    ensures ExtractTable(text) == if ms == [] then None else Some(Frame(TableColumns, RowsOf(text, ms)))
  {
    RowPatternConsistent();
    ScanUnique(RowPattern, text, 0, ms);
  }

  /** The result is None exactly when the pattern matches at no position. */
  lemma ExtractNoneIffNoMatch(text: string)
    ensures ExtractTable(text).None? <==> forall p :: 0 <= p <= |text| ==> MatchAt(text, p).None?
  {
    RowPatternConsistent();
    FindAllIsScan(RowPattern, text, 0);
    var ms := FindAll(RowPattern, text, 0);
    if |ms| > 0 {
      RowPatternIsMatchAt(text, ms[0].start);
    } else {
      forall p | 0 <= p <= |text|
        ensures MatchAt(text, p).None?
      {
        RowPatternIsMatchAt(text, p);
        assert MatchesAt(RowPattern, text, p) ==> Covered(ms, p);
      }
    }
  }

  /** `---` or `\d+\.\d+`, the text of an NGSP or area cell. */
  ghost predicate IsFieldText(t: string) {
    t == Dash || IsDecimal(t)
  }

  /** The shape of every extracted row: which text each of the five cells can hold. */
  ghost predicate IsPeakRow(row: Row) {
    && |row| == 5
    && (forall j :: 0 <= j < 5 ==> row[j].Str?)
    && row[0].text in PeakNames
    && IsFieldText(row[1].text)
    && IsFieldText(row[2].text)
    && IsDecimal(row[3].text)
    && IsDigits(row[4].text)
  }

  /** Every row of the extracted table has the shape of a peak row. */
  lemma ExtractRowsArePeakRows(text: string)
    requires ExtractTable(text).Some?
    ensures forall k :: 0 <= k < |ExtractTable(text).value.rows| ==> IsPeakRow(ExtractTable(text).value.rows[k])
  {
    var ms := FindAll(RowPattern, text, 0);
    forall k | 0 <= k < |ms|
      ensures IsPeakRow(RowOf(text, ms[k]))
    {
      RowPatternIsMatchAt(text, ms[k].start);
      MatchAtSound(text, ms[k].start);
      PeakRowOfMatch(text, ms[k]);
    }
  }

  /** The captured strings of a match of the pattern form a peak row. */
  lemma PeakRowOfMatch(s: string, m: Match)
    requires IsRowMatch(s, m)
    ensures IsPeakRow(RowOf(s, m))
  {
    FieldSpanText(s, m.ngspStart, m.ngspEnd);
    FieldSpanText(s, m.areaStart, m.areaEnd);
    DecimalSpanText(s, m.retStart, m.retEnd);
    DigitSpanText(s, m.peakStart, m.end);
  }

  lemma DigitSpanText(s: string, lo: nat, hi: nat)
    requires lo < hi <= |s| && AllIn(s, lo, hi, Digit)
    ensures IsDigits(s[lo..hi])
  {
    assert forall p :: 0 <= p < hi - lo ==> s[lo..hi][p] == s[lo + p];
  }

  lemma DecimalSpanText(s: string, lo: nat, hi: nat)
    requires lo <= hi <= |s| && DecimalSpan(s, lo, hi)
    ensures IsDecimal(s[lo..hi])
  {
    var d :| lo < d < hi - 1 && s[d] == '.' && AllIn(s, lo, d, Digit) && AllIn(s, d + 1, hi, Digit);
    var t := s[lo..hi];
    assert t[..d - lo] == s[lo..d];
    assert t[d - lo + 1..] == s[d + 1..hi];
    DigitSpanText(s, lo, d);
    DigitSpanText(s, d + 1, hi);
    assert IsDecimalAt(t, d - lo);
  }

  lemma FieldSpanText(s: string, lo: nat, hi: nat)
    requires lo <= hi <= |s| && FieldSpan(s, lo, hi)
    ensures IsFieldText(s[lo..hi])
  {
    if s[lo..hi] != Dash {
      DecimalSpanText(s, lo, hi);
    }
  }

  /**
   The pattern is unanchored and `\s` includes line breaks: a row can
   begin inside a word and run over several lines.
   */
  lemma MatchMidWordAcrossLines(text: string)
    requires text == "xA1c\n5.6\t---  0.536\n72455"
    ensures MatchAt(text, 1) == Some(Match(1, 4, 5, 8, 9, 12, 14, 19, 20, 25))
  {
    var m := Match(1, 4, 5, 8, 9, 12, 14, 19, 20, 25);
    MidWordRowMatch(text, m);
    MatchAtComplete(text, m);
  }

  lemma MidWordRowMatch(text: string, m: Match)
    requires text == "xA1c\n5.6\t---  0.536\n72455"
    requires m == Match(1, 4, 5, 8, 9, 12, 14, 19, 20, 25)
    ensures IsRowMatch(text, m)
  {
    MidWordGroups(text);
    MidWordDecimals(text);
    MidWordGaps(text);
  }

  lemma MidWordGroups(text: string)
    requires text == "xA1c\n5.6\t---  0.536\n72455"
    ensures |text| == 25 && text[1..4] in PeakNames && FieldSpan(text, 9, 12)
    ensures AllIn(text, 20, 25, Digit)
  {
    assert text[1] == 'A' && text[2] == '1' && text[3] == 'c';
    assert text[1..4] == "A1c";
    assert text[9] == '-' && text[10] == '-' && text[11] == '-';
    assert text[9..12] == Dash;
  }

  lemma MidWordDecimals(text: string)
    requires text == "xA1c\n5.6\t---  0.536\n72455"
    ensures |text| == 25 && FieldSpan(text, 5, 8) && DecimalSpan(text, 14, 19)
  {
    assert 5 < 6 < 8 - 1 && text[6] == '.' && AllIn(text, 5, 6, Digit) && AllIn(text, 7, 8, Digit);
    assert 14 < 15 < 19 - 1 && text[15] == '.' && AllIn(text, 14, 15, Digit) && AllIn(text, 16, 19, Digit);
  }

  lemma MidWordGaps(text: string)
    requires text == "xA1c\n5.6\t---  0.536\n72455"
    ensures |text| == 25
    ensures AllIn(text, 4, 5, Space) && AllIn(text, 8, 9, Space)
    ensures AllIn(text, 12, 14, Space) && AllIn(text, 19, 20, Space)
  {
  }
}
