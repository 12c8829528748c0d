/** Cutting a WhatsApp chat export into messages.

    The export is one text. Every date-time header ("31/12/21, 9:05 pm - " in
    the 12-hour layout, "31/12/21, 21:05 - " in the 24-hour one) starts a
    message; `re.split` on the header pattern gives the text between headers,
    `re.findall` the headers themselves, and the text before the first header
    is dropped. Each remaining segment is split again at the first
    "<non-empty prefix>:<whitespace>" into user and message; a segment without
    one is a group notification.

    The two regular expressions are modelled by hand-written matchers for
    exactly these patterns. The header matcher takes digit runs greedily; it is
    proved equal to the backtracking semantics of the pattern (GreedyIsBacktracking).
*/
module ChatExport {

  datatype Option<T> = None | Some(value: T)

  /** The two header layouts offered to the user: '12hr' and '24hr'. */
  datatype DateFormat = TwelveHour | TwentyFourHour

  /** `\d`. Only the ASCII digits are modelled. */
  predicate IsDigit(c: char)
  {
    '0' <= c <= '9'
  }

  /** `\s` in a str pattern: the characters for which Python's str.isspace() holds. */
  predicate IsSpace(c: char)
  {
    var n := c as int;
    n == 0x20 || 0x09 <= n <= 0x0d || 0x1c <= n <= 0x1f || n == 0x85 || n == 0xa0 || n == 0x1680 ||
    0x2000 <= n <= 0x200a || n == 0x2028 || n == 0x2029 || n == 0x202f || n == 0x205f || n == 0x3000
  }

  // ---------------------------------------------------------------------------
  // The header pattern and its matcher
  // ---------------------------------------------------------------------------

  /** One element of a header pattern. */
  datatype Piece =
    | Digits(lo: nat, hi: nat)   // \d{lo,hi}
    | OneOf(chars: set<char>)    // a literal character, or a class such as [APap]
    | Space                      // \s

  /** Pieces that can never consume a digit. */
  predicate StopsDigits(piece: Piece)
  {
    match piece
    case Digits(_, _) => false
    case OneOf(cs) => forall c :: c in cs ==> !IsDigit(c)
    case Space => true
  }

  /** Every digit run is followed by a piece that cannot start with a digit. */
  ghost predicate WellFormed(p: seq<Piece>)
    decreases |p|
  {
    p == [] || ((p[0].Digits? ==> |p| > 1 && StopsDigits(p[1])) && WellFormed(p[1..]))
  }

  /** Well-formedness, checked position by position. */
  lemma {:induction false} WellFormedByIndex(p: seq<Piece>)
    requires forall i :: 0 <= i < |p| && p[i].Digits? ==> i + 1 < |p| && StopsDigits(p[i + 1])
    ensures WellFormed(p)
    decreases |p|
  {
    if p != [] {
      assert forall i :: 0 <= i < |p| - 1 ==> p[1..][i] == p[i + 1];
      WellFormedByIndex(p[1..]);
    }
  }

  /** A pattern the scan can use: well formed, and never matching the empty text. */
  ghost predicate IsHeaderPattern(p: seq<Piece>)
  {
    WellFormed(p) && p != [] && p[0].Digits? && p[0].lo >= 1
  }

  /** The header patterns of app.py:79-82 (repeated at uiapp.py:29-32):
      `\d{1,2}/\d{1,2}/\d{2,4},\s\d{1,2}:\d{2}\s[APap][mM]\s-\s` and the same
      without `[APap][mM]\s` for the 24-hour layout. */
  function HeaderPattern(fmt: DateFormat): (p: seq<Piece>)
    ensures IsHeaderPattern(p)
  {
    var date := [Digits(1, 2), OneOf({'/'}), Digits(1, 2), OneOf({'/'}), Digits(2, 4), OneOf({','}), Space,
                 Digits(1, 2), OneOf({':'}), Digits(2, 2), Space];
    var dash := [OneOf({'-'}), Space];
    var p := match fmt
      case TwelveHour => date + [OneOf({'A', 'P', 'a', 'p'}), OneOf({'m', 'M'}), Space] + dash
      case TwentyFourHour => date + dash;
    WellFormedByIndex(p);
    p
  }

  /** Length of the run of digits starting at `pos`. */
  function DigitRun(s: string, pos: nat): (n: nat)
    requires pos <= |s|
    ensures pos + n <= |s|
    ensures forall i :: pos <= i < pos + n ==> IsDigit(s[i])
    ensures pos + n < |s| ==> !IsDigit(s[pos + n])
    decreases |s| - pos
  {
    if pos < |s| && IsDigit(s[pos]) then 1 + DigitRun(s, pos + 1) else 0
  }

  /** How many characters one piece takes at `pos`; digit runs are taken whole. */
  function PieceTake(piece: Piece, s: string, pos: nat): (r: Option<nat>)
    requires pos <= |s|
    ensures r.Some? ==> pos + r.value <= |s|
  {
    match piece
    case Digits(lo, hi) =>
      var d := DigitRun(s, pos);
      if lo <= d <= hi then Some(d) else None
    case OneOf(cs) => if pos < |s| && s[pos] in cs then Some(1) else None
    case Space => if pos < |s| && IsSpace(s[pos]) then Some(1) else None
  }

  /** The length of the match of `p` starting at `pos` of `s`, if any. */
  function MatchAt(p: seq<Piece>, s: string, pos: nat): (r: Option<nat>)
    requires pos <= |s|
    ensures r.Some? ==> pos + r.value <= |s|
    ensures r.Some? && p != [] && p[0].Digits? && p[0].lo >= 1 ==> r.value >= 1
    decreases |p|
  {
    if p == [] then Some(0)
    else
      match PieceTake(p[0], s, pos)
      case None => None
      case Some(k) =>
        match MatchAt(p[1..], s, pos + k)
        case None => None
        case Some(n) => Some(k + n)
  }

  /** Reference semantics: `piece` can consume exactly `s[pos..pos + k]`. */
  ghost predicate PieceMatches(piece: Piece, s: string, pos: nat, k: nat)
  {
    pos + k <= |s| &&
    match piece
    case Digits(lo, hi) => lo <= k <= hi && forall i :: pos <= i < pos + k ==> IsDigit(s[i])
    case OneOf(cs) => k == 1 && s[pos] in cs
    case Space => k == 1 && IsSpace(s[pos])
  }

  /** Reference semantics, one way of trying the pieces from `pos` on: the first
      piece of `p` consumes `ks[0]` characters, the next one the following
      `ks[1]`, and so on, each digit run taking any number of digits within its
      bounds. */
  ghost predicate MatchesWith(p: seq<Piece>, s: string, pos: nat, ks: seq<nat>)
    decreases |p|
  {
    |ks| == |p| &&
    (p == [] || (PieceMatches(p[0], s, pos, ks[0]) && MatchesWith(p[1..], s, pos + ks[0], ks[1..])))
  }

  /** The number of characters consumed altogether. */
  function Total(ks: seq<nat>): nat
  {
    if ks == [] then 0 else ks[0] + Total(ks[1..])
  }

  /** Reference semantics: some way of trying the pieces matches exactly `s[..n]`,
      as a backtracking regular expression engine would find. */
  ghost predicate Matches(p: seq<Piece>, s: string, n: nat)
  {
    exists ks :: MatchesWith(p, s, 0, ks) && Total(ks) == n
  }

  /** A match of a pattern that starts with a digit-stopping piece does not start with a digit. */
  lemma StartsWithoutDigit(p: seq<Piece>, s: string, pos: nat, ks: seq<nat>)
    requires p != [] && StopsDigits(p[0]) && MatchesWith(p, s, pos, ks)
    ensures pos < |s| && !IsDigit(s[pos])
  {
  }

  /** What a piece takes, it can consume. */
  lemma PieceTakeMatches(piece: Piece, s: string, pos: nat)
    requires pos <= |s| && PieceTake(piece, s, pos).Some?
    ensures PieceMatches(piece, s, pos, PieceTake(piece, s, pos).value)
  {
  }

  /** The greedy matcher takes the first piece, then matches the rest after it. */
  lemma MatchAtCons(p: seq<Piece>, s: string, pos: nat, k: nat, m: nat)
    requires p != [] && pos + k <= |s|
    requires PieceTake(p[0], s, pos) == Some(k) && MatchAt(p[1..], s, pos + k) == Some(m)
    ensures MatchAt(p, s, pos) == Some(k + m)
  {
  }

  /** A greedy match is the first piece's take followed by a match of the rest. */
  lemma MatchAtUncons(p: seq<Piece>, s: string, pos: nat, n: nat) returns (k: nat, m: nat)
    requires p != [] && pos <= |s| && MatchAt(p, s, pos) == Some(n)
    ensures PieceTake(p[0], s, pos) == Some(k) && pos + k <= |s|
    ensures MatchAt(p[1..], s, pos + k) == Some(m) && n == k + m
  {
    k := PieceTake(p[0], s, pos).value;
    m := MatchAt(p[1..], s, pos + k).value;
  }

  /** Every match of the greedy matcher is a match of the backtracking semantics:
      the lengths the greedy matcher gives the pieces are one way of trying them. */
  lemma {:induction false} GreedySound(p: seq<Piece>, s: string, pos: nat, n: nat) returns (ks: seq<nat>)
    requires pos <= |s| && MatchAt(p, s, pos) == Some(n)
    ensures MatchesWith(p, s, pos, ks) && Total(ks) == n
    decreases |p|
  {
    if p == [] {
      ks := [];
    } else {
      var k, m := MatchAtUncons(p, s, pos, n);
      var tail := GreedySound(p[1..], s, pos + k, m);
      PieceTakeMatches(p[0], s, pos);
      ks := [k] + tail;
      assert ks[0] == k && ks[1..] == tail;
    }
  }

  /** If the first piece of a well-formed pattern consumes `ks[0]` characters in
      a match, the greedy piece takes exactly that many. */
  lemma PieceTakeExact(p: seq<Piece>, s: string, pos: nat, ks: seq<nat>)
    requires p != [] && WellFormed(p) && pos <= |s| && MatchesWith(p, s, pos, ks)
    ensures PieceTake(p[0], s, pos) == Some(ks[0])
  {
    if p[0].Digits? {
      var d := DigitRun(s, pos);
      StartsWithoutDigit(p[1..], s, pos + ks[0], ks[1..]);
    }
  }

  /** Every match of the backtracking semantics is the greedy one. */
  lemma {:induction false} GreedyComplete(p: seq<Piece>, s: string, pos: nat, ks: seq<nat>)
    requires WellFormed(p) && pos <= |s| && MatchesWith(p, s, pos, ks)
    ensures MatchAt(p, s, pos) == Some(Total(ks))
    decreases |p|
  {
    if p != [] {
      PieceTakeExact(p, s, pos, ks);
      GreedyComplete(p[1..], s, pos + ks[0], ks[1..]);
      MatchAtCons(p, s, pos, ks[0], Total(ks[1..]));
    }
  }

  /** The greedy matcher finds exactly the matches of the backtracking semantics;
      in particular a header match, when there is one, has a single length. */
  lemma GreedyIsBacktracking(p: seq<Piece>, s: string, n: nat)
    requires WellFormed(p)
    ensures MatchAt(p, s, 0) == Some(n) <==> Matches(p, s, n)
  {
    if MatchAt(p, s, 0) == Some(n) {
      var ks := GreedySound(p, s, 0, n);
    }
    if Matches(p, s, n) {
      var ks :| MatchesWith(p, s, 0, ks) && Total(ks) == n;
      GreedyComplete(p, s, 0, ks);
    }
  }

  /** A way of trying the pieces that stays inside `s[a..b]` works on that slice too. */
  lemma {:induction false} MatchesWithSlice(p: seq<Piece>, s: string, pos: nat, ks: seq<nat>, a: nat, b: nat)
    requires a <= pos && pos + Total(ks) <= b <= |s|
    requires MatchesWith(p, s, pos, ks)
    ensures MatchesWith(p, s[a..b], pos - a, ks)
    decreases |p|
  {
    if p != [] {
      var k := ks[0];
      assert forall i :: pos - a <= i < pos - a + k ==> s[a..b][i] == s[i + a];
      assert PieceMatches(p[0], s[a..b], pos - a, k);
      MatchesWithSlice(p[1..], s, pos + k, ks[1..], a, b);
    }
  }

  // ---------------------------------------------------------------------------
  // re.split and re.findall on the header pattern
  // ---------------------------------------------------------------------------

  /** A matcher tried at position `q` of a text only ever matches a non-empty
      stretch of it that starts at `q`. */
  ghost predicate Consumes(matcher: (string, nat) -> Option<nat>)
  {
    forall t: string, q: nat :: matcher(t, q).Some? ==> 1 <= matcher(t, q).value && q + matcher(t, q).value <= |t|
  }

  /** A pattern's matcher, tried at position `q` of a text. */
  function PatternMatcher(p: seq<Piece>): (matcher: (string, nat) -> Option<nat>)
    requires IsHeaderPattern(p)
    ensures Consumes(matcher)
  {
    (t: string, q: nat) => if q <= |t| then MatchAt(p, t, q) else None
  }

  /** The header matcher as the function the scan below tries at each position:
      the length of the header starting at position `q` of a text, if one does. */
  function HeaderMatcher(fmt: DateFormat): (matcher: (string, nat) -> Option<nat>)
    ensures Consumes(matcher)
  {
    PatternMatcher(HeaderPattern(fmt))
  }

  /** The scan behind `re.split` and `re.findall`: try the pattern at `pos`; on a
      match, close the current piece (begun at `start`) and go on after the
      match; otherwise move one character on. */
  function SplitFrom(s: string, matcher: (string, nat) -> Option<nat>, start: nat, pos: nat): (r: (seq<string>, seq<string>))
    requires Consumes(matcher) && start <= pos <= |s|
    ensures |r.0| == |r.1| + 1
    decreases |s| - pos
  {
    if pos == |s| then
      ([s[start..]], [])
    else
      match matcher(s, pos)
      case Some(n) =>
        var (pieces, found) := SplitFrom(s, matcher, pos + n, pos + n);
        ([s[start..pos]] + pieces, [s[pos..pos + n]] + found)
      case None =>
        SplitFrom(s, matcher, start, pos + 1)
  }

  /** `re.split(pattern, s)`: the text before, between and after the headers. */
  function ReSplit(s: string, fmt: DateFormat): (pieces: seq<string>)
    ensures |pieces| >= 1
  {
    SplitFrom(s, HeaderMatcher(fmt), 0, 0).0
  }

  /** `re.findall(pattern, s)`: the headers, in order. */
  function ReFindAll(s: string, fmt: DateFormat): (found: seq<string>)
    // one segment per header once the text before the first header is dropped
    ensures |ReSplit(s, fmt)[1..]| == |found|
  {
    SplitFrom(s, HeaderMatcher(fmt), 0, 0).1
  }

  /** No header starts at any position in `[a, b)` of `s`. */
  ghost predicate NoHeaderIn(s: string, matcher: (string, nat) -> Option<nat>, a: nat, b: nat)
  {
    forall q :: a <= q < b ==> matcher(s, q).None?
  }

  /** `piece` is the text of `s` from `start` on, and no header starts inside it. */
  ghost predicate PieceAt(s: string, matcher: (string, nat) -> Option<nat>, start: nat, piece: string)
  {
    start + |piece| <= |s| && piece == s[start..start + |piece|] && NoHeaderIn(s, matcher, start, start + |piece|)
  }

  /** `header` is the text the matcher finds at `pos`. */
  ghost predicate FoundAt(s: string, matcher: (string, nat) -> Option<nat>, pos: nat, header: string)
  {
    matcher(s, pos) == Some(|header|) && pos + |header| <= |s| && header == s[pos..pos + |header|]
  }

  /** Reference definition of splitting `s[start..]` at the leftmost
      non-overlapping headers: each piece runs up to the first position where a
      header starts, the header found there follows it, and the rest of the text
      after that header is split the same way. */
  ghost predicate SplitsAs(s: string, matcher: (string, nat) -> Option<nat>, start: nat, pieces: seq<string>, found: seq<string>)
    requires Consumes(matcher) && start <= |s|
    decreases |found|
  {
    |pieces| == |found| + 1 && PieceAt(s, matcher, start, pieces[0]) &&
    var end := start + |pieces[0]|;
    if found == [] then
      end == |s|
    else
      FoundAt(s, matcher, end, found[0]) &&
      SplitsAs(s, matcher, end + |found[0]|, pieces[1..], found[1..])
  }

  /** The text after the last header is the last piece. */
  lemma SplitsAsLast(s: string, matcher: (string, nat) -> Option<nat>, start: nat)
    requires Consumes(matcher) && start <= |s| && NoHeaderIn(s, matcher, start, |s|)
    ensures SplitsAs(s, matcher, start, [s[start..]], [])
  {
  }

  /** A piece up to the first header, that header, then a split of the rest. */
  lemma SplitsAsStep(s: string, matcher: (string, nat) -> Option<nat>, start: nat, end: nat, n: nat,
                     pieces: seq<string>, found: seq<string>)
    requires Consumes(matcher) && start <= end <= |s| && NoHeaderIn(s, matcher, start, end)
    requires matcher(s, end) == Some(n) && end + n <= |s|
    requires SplitsAs(s, matcher, end + n, pieces, found)
    ensures SplitsAs(s, matcher, start, [s[start..end]] + pieces, [s[end..end + n]] + found)
  {
    var p, f := [s[start..end]] + pieces, [s[end..end + n]] + found;
    assert p[0] == s[start..end] && p[1..] == pieces;
    assert f[0] == s[end..end + n] && f[1..] == found;
  }

  /** After the first piece of a split come a header and a split of the rest. */
  lemma SplitsAsTail(s: string, matcher: (string, nat) -> Option<nat>, start: nat, pieces: seq<string>, found: seq<string>)
    requires Consumes(matcher) && start <= |s| && SplitsAs(s, matcher, start, pieces, found) && found != []
    ensures var end := start + |pieces[0]|;
      end + |found[0]| <= |s| &&
      matcher(s, end) == Some(|found[0]|) && found[0] == s[end..end + |found[0]|] &&
      SplitsAs(s, matcher, end + |found[0]|, pieces[1..], found[1..])
  {
  }

  lemma {:induction false} SplitFromSplits(s: string, matcher: (string, nat) -> Option<nat>, start: nat, pos: nat)
    requires Consumes(matcher) && start <= pos <= |s|
    requires NoHeaderIn(s, matcher, start, pos)
    ensures SplitsAs(s, matcher, start, SplitFrom(s, matcher, start, pos).0, SplitFrom(s, matcher, start, pos).1)
    decreases |s| - pos
  {
    if pos == |s| {
      SplitsAsLast(s, matcher, start);
    } else {
      match matcher(s, pos)
      case Some(n) =>
        SplitFromSplits(s, matcher, pos + n, pos + n);
        var (pieces, found) := SplitFrom(s, matcher, pos + n, pos + n);
        SplitsAsStep(s, matcher, start, pos, n, pieces, found);
      case None =>
        SplitFromSplits(s, matcher, start, pos + 1);
    }
  }

  /** The first piece of a split ends at the first header, or at the end of the text. */
  lemma SplitsAsFirstEnd(s: string, matcher: (string, nat) -> Option<nat>, start: nat, pieces: seq<string>, found: seq<string>)
    requires Consumes(matcher) && start <= |s| && SplitsAs(s, matcher, start, pieces, found)
    ensures start + |pieces[0]| <= |s| && NoHeaderIn(s, matcher, start, start + |pieces[0]|)
    ensures pieces[0] == s[start..start + |pieces[0]|]
    ensures found == [] <==> start + |pieces[0]| == |s|
    ensures found != [] ==> matcher(s, start + |pieces[0]|) == Some(|found[0]|)
  {
    if found != [] {
      SplitsAsTail(s, matcher, start, pieces, found);
    }
  }

  /** There is one first header position at or after `start` (or none, and the text ends). */
  lemma FirstHeaderUnique(s: string, matcher: (string, nat) -> Option<nat>, start: nat, e1: nat, e2: nat)
    requires start <= e1 <= |s| && start <= e2 <= |s|
    requires NoHeaderIn(s, matcher, start, e1) && NoHeaderIn(s, matcher, start, e2)
    requires e1 == |s| || matcher(s, e1).Some?
    requires e2 == |s| || matcher(s, e2).Some?
    ensures e1 == e2
  {
  }

  /** Two splits of the same text agree on their first piece and first header,
      and the rest of both is split from the same position. */
  lemma SplitsAsHeads(s: string, matcher: (string, nat) -> Option<nat>, start: nat,
                      p1: seq<string>, f1: seq<string>, p2: seq<string>, f2: seq<string>)
    requires Consumes(matcher) && start <= |s|
    requires SplitsAs(s, matcher, start, p1, f1) && SplitsAs(s, matcher, start, p2, f2)
    ensures p1[0] == p2[0] && (f1 == [] <==> f2 == [])
    ensures f1 != [] && f2 != [] ==>
      var next := start + |p1[0]| + |f1[0]|;
      f1[0] == f2[0] && next <= |s| &&
      SplitsAs(s, matcher, next, p1[1..], f1[1..]) && SplitsAs(s, matcher, next, p2[1..], f2[1..])
  {
    var e1, e2 := start + |p1[0]|, start + |p2[0]|;
    SplitsAsFirstEnd(s, matcher, start, p1, f1);
    SplitsAsFirstEnd(s, matcher, start, p2, f2);
    FirstHeaderUnique(s, matcher, start, e1, e2);
    assert p1[0] == s[start..e1] == p2[0];
    if f1 != [] && f2 != [] {
      SplitsAsTail(s, matcher, start, p1, f1);
      SplitsAsTail(s, matcher, start, p2, f2);
      assert f1[0] == s[e1..e1 + |f1[0]|] == f2[0];
    }
  }

  /** Sequences with the same head and the same tail are equal. */
  lemma HeadTailEqual<T>(a: seq<T>, b: seq<T>)
    requires a != [] && b != [] && a[0] == b[0] && a[1..] == b[1..]
    ensures a == b
  {
    assert a == [a[0]] + a[1..] && b == [b[0]] + b[1..];
  }

  lemma {:induction false} SplitsAsUnique(s: string, matcher: (string, nat) -> Option<nat>, start: nat,
                                          p1: seq<string>, f1: seq<string>, p2: seq<string>, f2: seq<string>)
    requires Consumes(matcher) && start <= |s|
    requires SplitsAs(s, matcher, start, p1, f1) && SplitsAs(s, matcher, start, p2, f2)
    ensures p1 == p2 && f1 == f2
    decreases |f1|
  {
    SplitsAsHeads(s, matcher, start, p1, f1, p2, f2);
    if f1 != [] {
      var next := start + |p1[0]| + |f1[0]|;
      SplitsAsUnique(s, matcher, next, p1[1..], f1[1..], p2[1..], f2[1..]);
      HeadTailEqual(f1, f2);
    }
    HeadTailEqual(p1, p2);
  }

  /** `re.split` and `re.findall` are exactly the leftmost non-overlapping split
      of the reference definition, and no other pair of lists is. */
  lemma ReSplitCharacterized(s: string, fmt: DateFormat, pieces: seq<string>, found: seq<string>)
    ensures ReSplit(s, fmt) == pieces && ReFindAll(s, fmt) == found <==>
            SplitsAs(s, HeaderMatcher(fmt), 0, pieces, found)
  {
    var matcher := HeaderMatcher(fmt);
    SplitFromSplits(s, matcher, 0, 0);
    if SplitsAs(s, matcher, 0, pieces, found) {
      SplitsAsUnique(s, matcher, 0, pieces, found, ReSplit(s, fmt), ReFindAll(s, fmt));
    }
  }

  /** The pieces with the headers between them, in order. */
  function Interleave(pieces: seq<string>, found: seq<string>): (s: string)
    requires |pieces| == |found| + 1
    decreases |found|
  {
    if found == [] then pieces[0] else pieces[0] + found[0] + Interleave(pieces[1..], found[1..])
  }

  lemma {:induction false} SplitsAsJoin(s: string, matcher: (string, nat) -> Option<nat>, start: nat, pieces: seq<string>, found: seq<string>)
    requires Consumes(matcher) && start <= |s| && SplitsAs(s, matcher, start, pieces, found)
    ensures Interleave(pieces, found) == s[start..]
    decreases |found|
  {
    if found != [] {
      var end := start + |pieces[0]|;
      var next := end + |found[0]|;
      assert pieces[0] == s[start..end] && found[0] == s[end..next];
      assert SplitsAs(s, matcher, next, pieces[1..], found[1..]);
      SplitsAsJoin(s, matcher, next, pieces[1..], found[1..]);
      assert s[start..] == s[start..end] + s[end..next] + s[next..];
    }
  }

  /** Every match of `matcher` is text that `accept` holds of. */
  ghost predicate OnlyFinds(matcher: (string, nat) -> Option<nat>, accept: string -> bool)
    requires Consumes(matcher)
  {
    forall t: string, q: nat :: matcher(t, q).Some? ==> accept(t[q..q + matcher(t, q).value])
  }

  /** Each header found is text the matcher accepts. */
  lemma {:induction false} SplitsAsFinds(s: string, matcher: (string, nat) -> Option<nat>, accept: string -> bool,
                                         start: nat, pieces: seq<string>, found: seq<string>)
    requires Consumes(matcher) && OnlyFinds(matcher, accept)
    requires start <= |s| && SplitsAs(s, matcher, start, pieces, found)
    ensures forall i :: 0 <= i < |found| ==> accept(found[i])
    decreases |found|
  {
    if found != [] {
      var end := start + |pieces[0]|;
      var next := end + |found[0]|;
      assert matcher(s, end) == Some(|found[0]|) && found[0] == s[end..next];
      assert accept(found[0]);
      assert SplitsAs(s, matcher, next, pieces[1..], found[1..]);
      SplitsAsFinds(s, matcher, accept, next, pieces[1..], found[1..]);
      assert forall i :: 1 <= i < |found| ==> found[i] == found[1..][i - 1];
    }
  }

  /** A match the greedy matcher finds at position `q` of `t` is, on its own, a
      match of the pattern. */
  lemma MatchIsMatch(p: seq<Piece>, t: string, q: nat)
    requires q <= |t| && MatchAt(p, t, q).Some?
    ensures var n := MatchAt(p, t, q).value;
      q + n <= |t| && Matches(p, t[q..q + n], n)
  {
    var n := MatchAt(p, t, q).value;
    var ks := GreedySound(p, t, q, n);
    MatchesWithSlice(p, t, q, ks, q, q + n);
  }

  /** The texts that match pattern `p` on their own. */
  ghost function PatternAccept(p: seq<Piece>): string -> bool
  {
    h => Matches(p, h, |h|)
  }

  /** Whatever a pattern's matcher finds matches the pattern. */
  lemma PatternOnlyFinds(p: seq<Piece>)
    requires IsHeaderPattern(p)
    ensures OnlyFinds(PatternMatcher(p), PatternAccept(p))
  {
    forall t: string, q: nat | PatternMatcher(p)(t, q).Some?
      ensures PatternAccept(p)(t[q..q + PatternMatcher(p)(t, q).value])
    {
      assert q <= |t| && PatternMatcher(p)(t, q) == MatchAt(p, t, q);
      MatchIsMatch(p, t, q);
    }
  }

  /** Nothing is lost: the dropped prefix, the headers and the segments,
      interleaved, give back the text. */
  lemma ReSplitLossless(s: string, fmt: DateFormat)
    ensures Interleave(ReSplit(s, fmt), ReFindAll(s, fmt)) == s
  {
    var matcher := HeaderMatcher(fmt);
    SplitFromSplits(s, matcher, 0, 0);
    SplitsAsJoin(s, matcher, 0, ReSplit(s, fmt), ReFindAll(s, fmt));
  }

  /** Every header `re.findall` returns matches the header pattern. */
  lemma ReFindAllHeaders(s: string, fmt: DateFormat)
    ensures forall i :: 0 <= i < |ReFindAll(s, fmt)| ==>
      Matches(HeaderPattern(fmt), ReFindAll(s, fmt)[i], |ReFindAll(s, fmt)[i]|)
  {
    var matcher := HeaderMatcher(fmt);
    PatternOnlyFinds(HeaderPattern(fmt));
    SplitFromSplits(s, matcher, 0, 0);
    SplitsAsFinds(s, matcher, PatternAccept(HeaderPattern(fmt)), 0, ReSplit(s, fmt), ReFindAll(s, fmt));
  }

  /** A character absent from the text is absent from every piece and header. */
  lemma {:induction false} InterleaveParts(pieces: seq<string>, found: seq<string>, c: char)
    requires |pieces| == |found| + 1
    requires c !in Interleave(pieces, found)
    ensures forall i :: 0 <= i < |pieces| ==> c !in pieces[i]
    ensures forall i :: 0 <= i < |found| ==> c !in found[i]
    decreases |found|
  {
    if found != [] {
      InterleaveParts(pieces[1..], found[1..], c);
      assert forall i :: 1 <= i < |pieces| ==> pieces[i] == pieces[1..][i - 1];
      assert forall i :: 1 <= i < |found| ==> found[i] == found[1..][i - 1];
    }
  }

  // ---------------------------------------------------------------------------
  // The user / message split of one segment
  // ---------------------------------------------------------------------------

  /** A `:` followed by a whitespace character at index `k` of `s`. */
  predicate ColonSpaceAt(s: string, k: nat)
  {
    k + 1 < |s| && s[k] == ':' && IsSpace(s[k + 1])
  }

  /** The first `:`+whitespace at index `j` or later: where the lazy
      `[\w\W]+?` of `([\w\W]+?):\s` stops when tried from `j - 1`. */
  function ColonSpaceFrom(s: string, j: nat): (r: Option<nat>)
    ensures r.Some? ==> j <= r.value && ColonSpaceAt(s, r.value)
    ensures r.Some? ==> forall k :: j <= k < r.value ==> !ColonSpaceAt(s, k)
    ensures r.None? ==> forall k :: j <= k ==> !ColonSpaceAt(s, k)
    decreases |s| - j
  {
    if j + 1 >= |s| then None
    else if ColonSpaceAt(s, j) then Some(j)
    else ColonSpaceFrom(s, j + 1)
  }

  /** `re.split('([\w\W]+?):\s', s)` scanning from `pos`, the current piece
      begun at `start`: the pieces with each captured prefix after the piece
      before it. */
  function SplitUserFrom(s: string, start: nat, pos: nat): (a: seq<string>)
    requires start <= pos <= |s|
    ensures |a| % 2 == 1
    decreases |s| - pos
  {
    if pos == |s| then
      [s[start..]]
    else
      match ColonSpaceFrom(s, pos + 1)
      case Some(j) => [s[start..pos], s[pos..j]] + SplitUserFrom(s, j + 2, j + 2)
      case None => SplitUserFrom(s, start, pos + 1)
  }

  const GroupNotification: string := "group_notification"

  /** The user and message of one segment (app.py:99-105). */
  function UserAndMessage(segment: string): (r: (string, string))
  {
    var a := SplitUserFrom(segment, 0, 0);
    if |a| > 1 then (a[1], a[2]) else (GroupNotification, a[0])
  }

  /** Some non-empty prefix of `t` is followed by `:` and whitespace. */
  ghost predicate HasSeparator(t: string)
  {
    exists k :: 1 <= k && ColonSpaceAt(t, k)
  }

  lemma {:induction false} NoSeparatorNoSplit(s: string, start: nat, pos: nat)
    requires start <= pos <= |s|
    requires forall k :: pos + 1 <= k ==> !ColonSpaceAt(s, k)
    ensures SplitUserFrom(s, start, pos) == [s[start..]]
    decreases |s| - pos
  {
    if pos < |s| {
      NoSeparatorNoSplit(s, start, pos + 1);
    }
  }

  /** A segment without a non-empty prefix followed by `:` and whitespace is a
      group notification carrying the whole segment. */
  lemma GroupNotificationSegment(segment: string)
    requires forall k :: 1 <= k ==> !ColonSpaceAt(segment, k)
    ensures UserAndMessage(segment) == (GroupNotification, segment)
  {
    NoSeparatorNoSplit(segment, 0, 0);
  }

  /** Otherwise the user is the shortest non-empty prefix before `:`+whitespace
      (ending at `j`), and the message is the rest of the segment, except that it
      is empty when the rest has such a separator itself (`re.split` cuts at
      every match and the message is the text between the first two). */
  lemma UserSegment(segment: string, j: nat)
    requires 1 <= j && ColonSpaceAt(segment, j)
    requires forall k :: 1 <= k < j ==> !ColonSpaceAt(segment, k)
    ensures UserAndMessage(segment) ==
      (segment[..j], if HasSeparator(segment[j + 2..]) then "" else segment[j + 2..])
  {
    assert ColonSpaceFrom(segment, 1) == Some(j);
    var rest := segment[j + 2..];
    var tail := SplitUserFrom(segment, j + 2, j + 2);
    assert SplitUserFrom(segment, 0, 0) == ["", segment[..j]] + tail;
    if j + 2 == |segment| {
      assert !HasSeparator(rest);
    } else {
      match ColonSpaceFrom(segment, j + 3)
      case Some(j') =>
        assert ColonSpaceAt(rest, j' - (j + 2));
        assert tail[0] == "";
      case None =>
        NoSeparatorNoSplit(segment, j + 2, j + 2);
        if HasSeparator(rest) {
          var k :| 1 <= k && ColonSpaceAt(rest, k);
          assert ColonSpaceAt(segment, k + j + 2);
          assert false;
        }
    }
  }

  /** The message of a segment is empty or a suffix of the segment. */
  lemma MessageIsSuffix(segment: string)
    ensures var m := UserAndMessage(segment).1;
      m == [] || (|m| <= |segment| && m == segment[|segment| - |m|..])
  {
    match ColonSpaceFrom(segment, 1)
    case None =>
      GroupNotificationSegment(segment);
    case Some(j) =>
      UserSegment(segment, j);
  }

  /** A character absent from a text is absent from each of its slices. */
  lemma NotInSlice(s: string, c: char, x: nat, y: nat)
    requires x <= y <= |s| && c !in s
    ensures c !in s[x..y]
  {
  }

  /** Each piece of the user split is a slice of the text. */
  lemma {:induction false} SplitUserParts(s: string, start: nat, pos: nat, c: char)
    requires start <= pos <= |s| && c !in s
    ensures forall i :: 0 <= i < |SplitUserFrom(s, start, pos)| ==> c !in SplitUserFrom(s, start, pos)[i]
    decreases |s| - pos
  {
    var a := SplitUserFrom(s, start, pos);
    if pos == |s| {
      NotInSlice(s, c, start, |s|);
    } else {
      match ColonSpaceFrom(s, pos + 1)
      case Some(j) =>
        NotInSlice(s, c, start, pos);
        NotInSlice(s, c, pos, j);
        SplitUserParts(s, j + 2, j + 2, c);
        var tail := SplitUserFrom(s, j + 2, j + 2);
        assert a == [s[start..pos], s[pos..j]] + tail;
        assert forall i :: 2 <= i < |a| ==> a[i] == tail[i - 2];
      case None =>
        SplitUserParts(s, start, pos + 1, c);
    }
  }

  /** The user and message are taken from the segment, apart from the fixed
      group-notification name. */
  lemma UserAndMessageFromSegment(segment: string, c: char)
    requires c !in segment && c !in GroupNotification
    ensures c !in UserAndMessage(segment).0 && c !in UserAndMessage(segment).1
  {
    SplitUserParts(segment, 0, 0, c);
  }

  // ---------------------------------------------------------------------------
  // Joining lines (uiapp.py:39)
  // ---------------------------------------------------------------------------

  /** Python's `str.split(sep)`: the text between separators, empty pieces included. */
  function SplitOn(s: string, sep: char): (parts: seq<string>)
    ensures |parts| >= 1
    ensures forall i :: 0 <= i < |parts| ==> sep !in parts[i]
    decreases |s|
  {
    if s == [] then
      [""]
    else
      var rest := SplitOn(s[1..], sep);
      if s[0] == sep then [""] + rest else [[s[0]] + rest[0]] + rest[1..]
  }

  /** Python's `sep.join(parts)`. */
  function JoinWith(sep: char, parts: seq<string>): string
    decreases |parts|
  {
    if parts == [] then "" else if |parts| == 1 then parts[0] else parts[0] + [sep] + JoinWith(sep, parts[1..])
  }

  /** Every `sep` of `s` replaced by `with`. */
  function Replace(s: string, sep: char, with: char): (r: string)
  {
    seq(|s|, i requires 0 <= i < |s| => if s[i] == sep then with else s[i])
  }

  /** Splitting at `sep` and joining with `with` replaces each `sep` by `with`, one for one. */
  lemma {:induction false} JoinSplitReplaces(s: string, sep: char, with: char)
    ensures JoinWith(with, SplitOn(s, sep)) == Replace(s, sep, with)
    decreases |s|
  {
    if s != [] {
      var rest := SplitOn(s[1..], sep);
      JoinSplitReplaces(s[1..], sep, with);
      assert Replace(s, sep, with) == [if s[0] == sep then with else s[0]] + Replace(s[1..], sep, with);
      if s[0] != sep && |rest| > 1 {
        var parts := SplitOn(s, sep);
        assert parts[1..] == rest[1..];
      }
    }
  }

  /** `str.split` is undone by `str.join` with the same separator. */
  lemma SplitJoinRoundTrip(s: string, sep: char)
    ensures JoinWith(sep, SplitOn(s, sep)) == s
  {
    JoinSplitReplaces(s, sep, sep);
  }

  /** Reading a file in text mode (uiapp.py:38, `open(file, 'r')`): Python's
      universal newlines turn `\r\n` and a lone `\r` each into `\n`. */
  function UniversalNewlines(raw: string): (text: string)
    ensures '\r' !in text
    ensures |text| <= |raw|
    decreases |raw|
  {
    if raw == [] then []
    else if raw[0] == '\r' then
      "\n" + UniversalNewlines(if |raw| > 1 && raw[1] == '\n' then raw[2..] else raw[1..])
    else
      [raw[0]] + UniversalNewlines(raw[1..])
  }

  /** Text without carriage returns is read as it is. */
  lemma {:induction false} UniversalNewlinesKeepsPlainText(raw: string)
    requires '\r' !in raw
    ensures UniversalNewlines(raw) == raw
    decreases |raw|
  {
    if raw != [] {
      assert raw == [raw[0]] + raw[1..];
      UniversalNewlinesKeepsPlainText(raw[1..]);
    }
  }

  /** A Windows line end is read as one line break. */
  lemma UniversalNewlinesCrLf(a: string, b: string)
    requires '\r' !in a
    ensures UniversalNewlines(a + "\r\n" + b) == a + "\n" + UniversalNewlines(b)
    decreases |a|
  {
    if a == [] {
      assert a + "\r\n" + b == "\r\n" + b;
      assert ("\r\n" + b)[2..] == b;
    } else {
      assert (a + "\r\n" + b)[0] == a[0];
      assert (a + "\r\n" + b)[1..] == a[1..] + "\r\n" + b;
      UniversalNewlinesCrLf(a[1..], b);
      assert a == [a[0]] + a[1..];
    }
  }

  /** A carriage return not followed by a line feed is read as one line break. */
  lemma {:induction false} UniversalNewlinesLoneCr(a: string, b: string)
    requires '\r' !in a && (b == [] || b[0] != '\n')
    ensures UniversalNewlines(a + "\r" + b) == a + "\n" + UniversalNewlines(b)
    decreases |a|
  {
    if a == [] {
      assert a + "\r" + b == "\r" + b;
      LoneCrFirst(b);
    } else {
      assert a[0] in a;
      assert a + "\r" + b == [a[0]] + (a[1..] + "\r" + b);
      UniversalNewlinesCons(a[0], a[1..] + "\r" + b);
      UniversalNewlinesLoneCr(a[1..], b);
      assert a == [a[0]] + a[1..];
    }
  }

  /** A character other than `\r` is read as it is. */
  lemma UniversalNewlinesCons(c: char, rest: string)
    requires c != '\r'
    ensures UniversalNewlines([c] + rest) == [c] + UniversalNewlines(rest)
  {
    assert ([c] + rest)[1..] == rest;
  }

  /** The first step of UniversalNewlinesLoneCr: a text starting with a lone `\r`. */
  lemma LoneCrFirst(b: string)
    requires b == [] || b[0] != '\n'
    ensures UniversalNewlines("\r" + b) == "\n" + UniversalNewlines(b)
  {
    var raw := "\r" + b;
    assert raw[0] == '\r' && raw[1..] == b;
    assert |raw| > 1 ==> raw[1] == b[0];
  }

  /** uiapp.py:39, `' '.join(raw.split('\n'))`: every newline becomes one space. */
  function JoinLines(raw: string): (text: string)
    ensures |text| == |raw|
    ensures forall i :: 0 <= i < |raw| ==> text[i] == if raw[i] == '\n' then ' ' else raw[i]
    ensures '\n' !in text
  {
    JoinSplitReplaces(raw, '\n', ' ');
    JoinWith(' ', SplitOn(raw, '\n'))
  }

  // ---------------------------------------------------------------------------
  // The import
  // ---------------------------------------------------------------------------

  /** One row of the frame the import builds. */
  datatype Message = Message(dateTime: string, user: string, text: string)

  /** The text that is cut: app.py uses the decoded export as it is
      (`StringIO` keeps carriage returns); uiapp.py reads it in text mode and
      joins its lines. */
  function ExportText(raw: string, joinLines: bool): (text: string)
    ensures !joinLines ==> text == raw
    ensures joinLines ==> '\n' !in text && '\r' !in text && |text| <= |raw|
  {
    if joinLines then JoinLines(UniversalNewlines(raw)) else raw
  }

  /** The loop of app.py:98-106 (uiapp.py:42-50): each segment's user and
      message, in order. */
  method SplitUsers(segments: seq<string>) returns (usernames: seq<string>, msgs: seq<string>)
    ensures |usernames| == |msgs| == |segments|
    ensures forall k :: 0 <= k < |segments| ==> (usernames[k], msgs[k]) == UserAndMessage(segments[k])
  {
    usernames, msgs := [], [];
    for i := 0 to |segments|
      invariant |usernames| == |msgs| == i
      invariant forall k :: 0 <= k < i ==> (usernames[k], msgs[k]) == UserAndMessage(segments[k])
    {
      var a := SplitUserFrom(segments[i], 0, 0);
      var user, msg;
      if |a| > 1 {
        user, msg := a[1], a[2];
      } else {
        user, msg := GroupNotification, a[0];
      }
      usernames := usernames + [user];
      msgs := msgs + [msg];
    }
  }

  /** A character absent from the text and from `group_notification` is absent
      from every header, user and message. */
  lemma AbsentFromRows(pieces: seq<string>, found: seq<string>, c: char)
    requires |pieces| == |found| + 1
    requires c !in Interleave(pieces, found) && c !in GroupNotification
    ensures forall i :: 0 <= i < |found| ==> c !in found[i]
    ensures forall i :: 1 <= i < |pieces| ==>
      c !in UserAndMessage(pieces[i]).0 && c !in UserAndMessage(pieces[i]).1
  {
    InterleaveParts(pieces, found, c);
    forall i | 1 <= i < |pieces|
      ensures c !in UserAndMessage(pieces[i]).0 && c !in UserAndMessage(pieces[i]).1
    {
      UserAndMessageFromSegment(pieces[i], c);
    }
  }

  /** `import_data` (app.py:77-110; `rawToDf` at uiapp.py:28-59 with `joinLines`):
      one row per header, in order, carrying that header and the user and
      message of the segment after it. */
  method ImportChat(raw: string, fmt: DateFormat, joinLines: bool) returns (rows: seq<Message>)
    ensures var text := ExportText(raw, joinLines);
      |rows| == |ReFindAll(text, fmt)| &&
      forall i :: 0 <= i < |rows| ==>
        rows[i].dateTime == ReFindAll(text, fmt)[i] &&
        (rows[i].user, rows[i].text) == UserAndMessage(ReSplit(text, fmt)[i + 1])
    ensures joinLines ==> forall i :: 0 <= i < |rows| ==>
      '\n' !in rows[i].dateTime && '\n' !in rows[i].user && '\n' !in rows[i].text &&
      '\r' !in rows[i].dateTime && '\r' !in rows[i].user && '\r' !in rows[i].text
  {
    var text := ExportText(raw, joinLines);
    var userMsg := ReSplit(text, fmt)[1..];
    var dateTime := ReFindAll(text, fmt);
    var usernames, msgs := SplitUsers(userMsg);
    rows := seq(|dateTime|, i requires 0 <= i < |dateTime| => Message(dateTime[i], usernames[i], msgs[i]));
    if joinLines {
      JoinedExportClean(raw, text, fmt);
    }
  }

  /** After uiapp.py's text-mode read and line joining, no piece of the cut
      holds a line break or a carriage return. */
  lemma JoinedExportClean(raw: string, text: string, fmt: DateFormat)
    requires text == ExportText(raw, true)
    ensures forall i :: 0 <= i < |ReFindAll(text, fmt)| ==>
      '\n' !in ReFindAll(text, fmt)[i] && '\r' !in ReFindAll(text, fmt)[i]
    ensures forall i :: 1 <= i < |ReSplit(text, fmt)| ==>
      '\n' !in UserAndMessage(ReSplit(text, fmt)[i]).0 && '\n' !in UserAndMessage(ReSplit(text, fmt)[i]).1 &&
      '\r' !in UserAndMessage(ReSplit(text, fmt)[i]).0 && '\r' !in UserAndMessage(ReSplit(text, fmt)[i]).1
  {
    assert '\n' !in GroupNotification && '\r' !in GroupNotification;
    AbsentFromCut(text, fmt, '\n');
    AbsentFromCut(text, fmt, '\r');
  }

  /** A character missing from the text and from the notification sender
      is missing from every header, user and message of the cut. */
  lemma AbsentFromCut(text: string, fmt: DateFormat, c: char)
    requires c !in text && c !in GroupNotification
    ensures forall i :: 0 <= i < |ReFindAll(text, fmt)| ==> c !in ReFindAll(text, fmt)[i]
    ensures forall i :: 1 <= i < |ReSplit(text, fmt)| ==>
      c !in UserAndMessage(ReSplit(text, fmt)[i]).0 && c !in UserAndMessage(ReSplit(text, fmt)[i]).1
  {
    ReSplitLossless(text, fmt);
    AbsentFromRows(ReSplit(text, fmt), ReFindAll(text, fmt), c);
  }

}
