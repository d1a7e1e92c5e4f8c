/**
  The meal extractor: `re.findall(r'\[(.*?)\]', text)`, written out as a
  left-to-right scanner.

  At a `[` the lazy group `(.*?)` grows one character at a time until the
  next character is a `]`; Python's `.` matches every character except a
  line feed, so a line feed before the first `]` makes that attempt fail.
  After a match the scan resumes just past its `]`; after a failed attempt
  it resumes one character further on.
*/
module Extraction {
  import opened Common

  /** One match: the index of its `[` and the index of its `]`. */
  datatype Span = Span(open: nat, close: nat)

  /** `c` is where `(.*?)\]` stops when it starts at `j`: the first `]` at or
      after `j`, with no line feed in between. */
  predicate ClosesAt(s: string, j: nat, c: nat)
  {
    j <= c < |s| && s[c] == ']' &&
    forall k :: j <= k < c ==> s[k] != ']' && s[k] != '\n'
  }

  /** The pattern matches from the `[` at `o` to the `]` at `c`. */
  predicate Opens(s: string, o: nat, c: nat)
  {
    o < |s| && s[o] == '[' && ClosesAt(s, o + 1, c)
  }

  /** A match attempt at `o` succeeds. */
  ghost predicate IsOpening(s: string, o: nat)
  {
    exists c :: Opens(s, o, c)
  }

  lemma ClosesAtUnique(s: string, j: nat, c: nat, d: nat)
    requires ClosesAt(s, j, c) && ClosesAt(s, j, d)
    ensures c == d
  {
  }

  /** Finds where the lazy group started at `j` stops, if anywhere. */
  function FindClose(s: string, j: nat): (r: Option<nat>)
    requires j <= |s|
    ensures r.Some? ==> ClosesAt(s, j, r.value)
    ensures r.None? ==> forall c :: !ClosesAt(s, j, c)
    decreases |s| - j
  {
    if j == |s| then None
    else if s[j] == ']' then Some(j)
    else if s[j] == '\n' then None
    else
      assert forall c :: ClosesAt(s, j, c) ==> ClosesAt(s, j + 1, c);
      FindClose(s, j + 1)
  }

  /** The spans are matches lying at or after `i`, in strictly increasing
      order and pairwise disjoint. */
  ghost predicate Ordered(s: string, i: nat, r: seq<Span>)
  {
    (forall k :: 0 <= k < |r| ==> i <= r[k].open && Opens(s, r[k].open, r[k].close)) &&
    (forall k, l :: 0 <= k < l < |r| ==> r[k].close < r[l].open)
  }

  /** Every successful match attempt at or after `i` either is one of the
      spans or lies inside one (and is therefore skipped). */
  ghost predicate Covers(s: string, i: nat, r: seq<Span>)
  {
    forall o :: i <= o && IsOpening(s, o) ==>
      exists k :: 0 <= k < |r| && r[k].open <= o < r[k].close
  }

  /** The declarative description of what `findall` returns from `i` on. */
  ghost predicate MatchList(s: string, i: nat, r: seq<Span>)
  {
    Ordered(s, i, r) && Covers(s, i, r)
  }

  /** The scanner: the spans `findall` reports when it starts at `i`. */
  function Scan(s: string, i: nat): (r: seq<Span>)
    requires i <= |s|
    ensures forall k :: 0 <= k < |r| ==> i <= r[k].open && Opens(s, r[k].open, r[k].close)
    ensures forall k, l :: 0 <= k < l < |r| ==> r[k].close < r[l].open
    decreases |s| - i
  {
    if i == |s| then []
    else if s[i] == '[' then
      match FindClose(s, i + 1)
      case Some(c) => [Span(i, c)] + Scan(s, c + 1)
      case None => Scan(s, i + 1)
    else Scan(s, i + 1)
  }

  /** `extract_meals`: the interiors of the matches, in order. Each meal
      appears in the text wrapped in the brackets of its match, and holds no
      `]` and no line feed. */
  function ExtractMeals(text: string): (meals: seq<string>)
    ensures |meals| == |Scan(text, 0)|
    ensures forall k :: 0 <= k < |meals| ==>
      var m := Scan(text, 0)[k];
      m.open < m.close < |text| &&
      text[m.open .. m.close + 1] == "[" + meals[k] + "]" &&
      ']' !in meals[k] && '\n' !in meals[k]
  {
    var spans := Scan(text, 0);
    seq(|spans|, k requires 0 <= k < |spans| => text[spans[k].open + 1 .. spans[k].close])
  }

  /** A match at `i` followed by a covering list from just past its `]` on
      covers everything from `i` on. */
  lemma CoversAfterMatch(s: string, i: nat, c: nat, rest: seq<Span>)
    requires Opens(s, i, c) && Covers(s, c + 1, rest)
    ensures Covers(s, i, [Span(i, c)] + rest)
  {
    var r := [Span(i, c)] + rest;
    forall o | i <= o && IsOpening(s, o)
      ensures exists k :: 0 <= k < |r| && r[k].open <= o < r[k].close
    {
      if o < c {
        assert r[0].open <= o < r[0].close;
      } else {
        assert o != c;
        var k :| 0 <= k < |rest| && rest[k].open <= o < rest[k].close;
        assert r[k + 1] == rest[k];
      }
    }
  }

  /** Where the attempt at `i` fails, covering from `i + 1` on is covering
      from `i` on. */
  lemma CoversPastNonOpening(s: string, i: nat, r: seq<Span>)
    requires i < |s| && Covers(s, i + 1, r)
    requires s[i] != '[' || FindClose(s, i + 1).None?
    ensures Covers(s, i, r)
  {
  }

  /** The scanner leaves no successful match attempt unreported. */
  lemma {:induction false} ScanCovers(s: string, i: nat)
    requires i <= |s|
    ensures Covers(s, i, Scan(s, i))
    decreases |s| - i
  {
    if i < |s| {
      if s[i] == '[' && FindClose(s, i + 1).Some? {
        var c := FindClose(s, i + 1).value;
        assert Scan(s, i) == [Span(i, c)] + Scan(s, c + 1);
        ScanCovers(s, c + 1);
        CoversAfterMatch(s, i, c, Scan(s, c + 1));
      } else {
        assert Scan(s, i) == Scan(s, i + 1);
        ScanCovers(s, i + 1);
        CoversPastNonOpening(s, i, Scan(s, i + 1));
      }
    }
  }

  /** The first span of an ordered list is a bracket pair at or after `i`. */
  lemma OrderedHead(s: string, i: nat, r: seq<Span>)
    requires Ordered(s, i, r)
    ensures |r| > 0 ==>
      i <= r[0].open < r[0].close < |s| && s[r[0].open] == '[' && s[r[0].close] == ']'
  {
  }

  /** A list meeting the description from `i`, where no match can start
      at `i`, meets it from `i + 1` as well. */
  lemma MatchListSkip(s: string, i: nat, r: seq<Span>)
    requires MatchList(s, i, r) && !IsOpening(s, i)
    ensures MatchList(s, i + 1, r)
  {
  }

  /** A list meeting the description from `i`, where a match runs from `i`
      to `c`, starts with that match and meets the description past `c`. */
  lemma MatchListTake(s: string, i: nat, c: nat, r: seq<Span>)
    requires MatchList(s, i, r) && Opens(s, i, c)
    ensures |r| > 0 && r[0] == Span(i, c) && MatchList(s, c + 1, r[1..])
  {
    assert IsOpening(s, i);
    var k :| 0 <= k < |r| && r[k].open <= i < r[k].close;
    OrderedHead(s, i, r);
    ClosesAtUnique(s, i + 1, c, r[0].close);
    var rest := r[1..];
    forall l | 0 <= l < |rest|
      ensures c + 1 <= rest[l].open
    {
      assert rest[l] == r[l + 1];
    }
    forall o | c + 1 <= o && IsOpening(s, o)
      ensures exists l :: 0 <= l < |rest| && rest[l].open <= o < rest[l].close
    {
      var m :| 0 <= m < |r| && r[m].open <= o < r[m].close;
      assert rest[m - 1] == r[m];
    }
  }

  /** Any list of spans meeting the declarative description is the scanner's. */
  lemma {:induction false} MatchListUnique(s: string, i: nat, r: seq<Span>)
    requires i <= |s| && MatchList(s, i, r)
    ensures r == Scan(s, i)
    decreases |s| - i
  {
    OrderedHead(s, i, r);
    if i == |s| {
    } else if IsOpening(s, i) {
      var c: nat :| Opens(s, i, c);
      ClosesAtUnique(s, i + 1, c, FindClose(s, i + 1).value);
      MatchListTake(s, i, c, r);
      MatchListUnique(s, c + 1, r[1..]);
      assert r == [Span(i, c)] + r[1..];
    } else {
      MatchListSkip(s, i, r);
      MatchListUnique(s, i + 1, r);
      assert s[i] == '[' && FindClose(s, i + 1).Some? ==> Opens(s, i, FindClose(s, i + 1).value);
    }
  }

  /** The scanner's result is exactly the one list of spans that the
      declarative description admits. */
  lemma ScanCharacterised(s: string, r: seq<Span>)
    ensures MatchList(s, 0, r) <==> r == Scan(s, 0)
  {
    ScanCovers(s, 0);
    if MatchList(s, 0, r) {
      MatchListUnique(s, 0, r);
    }
  }

  /** A text without a `[`, or without a `]`, names no meal. */
  lemma NoMealsWithoutBothBrackets(text: string)
    requires '[' !in text || ']' !in text
    ensures ExtractMeals(text) == []
  {
    OrderedHead(text, 0, Scan(text, 0));
  }

  /** Text without a `[` is passed over. */
  lemma {:induction false} ScanSkips(s: string, i: nat, j: nat)
    requires i <= j <= |s| && forall k :: i <= k < j ==> s[k] != '['
    ensures Scan(s, i) == Scan(s, j)
    decreases j - i
  {
    if i < j {
      ScanSkips(s, i + 1, j);
    }
  }

  /** `FindClose` finds the `]` that closes the group. */
  lemma FindCloseFinds(s: string, j: nat, c: nat)
    requires ClosesAt(s, j, c)
    ensures FindClose(s, j) == Some(c)
  {
  }

  lemma EmptyTextNamesNoMeal()
    ensures ExtractMeals("") == []
  {
  }

  lemma UnterminatedNamesNoMeal()
    ensures ExtractMeals("[unterminated") == []
  {
    NoMealsWithoutBothBrackets("[unterminated");
  }

  lemma TwoMealsInOrder()
    ensures ExtractMeals("[A][B]") == ["A", "B"]
  {
    var s := "[A][B]";
    assert FindClose(s, 4) == Some(5);
    assert Scan(s, 3) == [Span(3, 5)];
    assert FindClose(s, 1) == Some(2);
    assert Scan(s, 0) == [Span(0, 2), Span(3, 5)];
    assert s[1..2] == "A" && s[4..5] == "B";
  }

  lemma EmptyBracketsNameEmptyMeal()
    ensures ExtractMeals("[]") == [""]
  {
    assert Scan("[]", 0) == [Span(0, 1)];
  }

  lemma DuplicatesKept()
    ensures ExtractMeals("[A] text [A]") == ["A", "A"]
  {
    var s := "[A] text [A]";
    assert FindClose(s, 10) == Some(11);
    assert Scan(s, 12) == [];
    assert Scan(s, 9) == [Span(9, 11)];
    ScanSkips(s, 3, 9);
    assert FindClose(s, 1) == Some(2);
    assert Scan(s, 0) == [Span(0, 2), Span(9, 11)];
    assert s[1..2] == "A" && s[10..11] == "A";
  }

  /** A `[` inside a match belongs to its interior. */
  lemma InnerOpenBracketIsInterior()
    ensures ExtractMeals("[a[b]") == ["a[b"]
  {
    var s := "[a[b]";
    assert FindClose(s, 1) == Some(4);
    assert Scan(s, 0) == [Span(0, 4)];
    assert s[1..4] == "a[b";
  }

  /** The first `]` closes the match; a second one is left over. */
  lemma FirstCloseBracketEndsMatch()
    ensures ExtractMeals("[[x]]") == ["[x"]
  {
    var s := "[[x]]";
    assert FindClose(s, 1) == Some(3);
    assert Scan(s, 4) == [];
    assert Scan(s, 0) == [Span(0, 3)];
    assert s[1..3] == "[x";
  }

  /** A line feed before any `]` makes the attempt fail; the scan retries
      one character later. */
  lemma LineFeedBreaksMatch()
    ensures ExtractMeals("[a\n[b]") == ["b"]
  {
    var s := "[a\n[b]";
    assert FindClose(s, 1) == None;
    assert FindClose(s, 4) == Some(5);
    assert Scan(s, 3) == [Span(3, 5)];
    assert Scan(s, 0) == [Span(3, 5)];
    assert s[4..5] == "b";
  }

  /** A `[` in text free of brackets, enclosing a one-line name free of `]`,
      names exactly that meal. */
  lemma SingleMeal(before: string, meal: string, after: string)
    requires '[' !in before && '[' !in after
    requires ']' !in meal && '\n' !in meal
    ensures ExtractMeals(before + "[" + meal + "]" + after) == [meal]
  {
    var s := before + "[" + meal + "]" + after;
    var o, c := |before|, |before| + 1 + |meal|;
    assert s[o] == '[' && s[c] == ']';
    forall k | o + 1 <= k < c
      ensures s[k] != ']' && s[k] != '\n'
    {
      assert s[k] == meal[k - o - 1];
    }
    FindCloseFinds(s, o + 1, c);
    forall k | c + 1 <= k < |s|
      ensures s[k] != '['
    {
      assert s[k] == after[k - c - 1];
    }
    ScanSkips(s, c + 1, |s|);
    assert Scan(s, o) == [Span(o, c)];
    forall k | 0 <= k < o
      ensures s[k] != '['
    {
      assert s[k] == before[k];
    }
    ScanSkips(s, 0, o);
    assert s[o + 1 .. c] == meal;
  }
}
