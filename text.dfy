/** The string operations the dashboard applies to cells: comma removal
    (`str.replace(',', '')`), ASCII lower-casing and substring search
    (`str.contains(..., case=False)`), Python's integer parsing (`int`)
    and Python's ordering of strings (code point by code point). */
module Text {
  import opened Wrappers

  // ---------------------------------------------------------------- commas

  /** The text with every ',' removed. */
  function StripCommas(s: string): (r: string)
    ensures ',' !in r
    ensures |r| <= |s|
    ensures forall c :: c != ',' ==> multiset(r)[c] == multiset(s)[c]
  {
    if s == [] then []
    else
      assert s == [s[0]] + s[1..];
      if s[0] == ',' then StripCommas(s[1..]) else [s[0]] + StripCommas(s[1..])
  }

  /** Text without commas is left as it is. */
  lemma {:induction false} StripCommasNoComma(s: string)
    requires ',' !in s
    ensures StripCommas(s) == s
  {
    if s != [] {
      assert s[1..] == s[1..];
      assert ',' !in s[1..];
      StripCommasNoComma(s[1..]);
    }
  }

  /** The text is unchanged exactly when it holds no comma. */
  lemma StripCommasFixpoint(s: string)
    ensures StripCommas(s) == s <==> ',' !in s
  {
    if ',' !in s {
      StripCommasNoComma(s);
    }
  }

  /** Stripping twice is stripping once. */
  lemma StripCommasIdempotent(s: string)
    ensures StripCommas(StripCommas(s)) == StripCommas(s)
  {
    StripCommasNoComma(StripCommas(s));
  }

  /** Stripping works piecewise over a concatenation. */
  lemma {:induction false} StripCommasAppend(a: string, b: string)
    ensures StripCommas(a + b) == StripCommas(a) + StripCommas(b)
  {
    if a == [] {
      assert a + b == b;
    } else {
      assert (a + b)[0] == a[0];
      assert (a + b)[1..] == a[1..] + b;
      StripCommasAppend(a[1..], b);
    }
  }

  /** Removing a thousands separator: "2,020" and "2020" normalise alike. */
  lemma ThousandsSeparatorRemoved()
    ensures StripCommas("2,020") == StripCommas("2020") == "2020"
  {
    StripCommasAppend("2", ",020");
    StripCommasAppend(",", "020");
    StripCommasNoComma("2");
    StripCommasNoComma("020");
    StripCommasNoComma("2020");
  }

  // ------------------------------------------------------- case and search

  predicate IsUpper(c: char) { 'A' <= c <= 'Z' }

  /** ASCII lower-casing of one character. */
  function LowerChar(c: char): (r: char)
    ensures !IsUpper(r)
    ensures IsUpper(c) ==> r as int == c as int + 32
    ensures !IsUpper(c) ==> r == c
  {
    if IsUpper(c) then (c as int + 32) as char else c
  }

  /** ASCII lower-casing of a text. */
  function Lower(s: string): (r: string)
    ensures |r| == |s|
    ensures forall i :: 0 <= i < |s| ==> r[i] == LowerChar(s[i])
  {
    seq(|s|, i requires 0 <= i < |s| => LowerChar(s[i]))
  }

  /** Lower-casing twice is lower-casing once. */
  lemma LowerIdempotent(s: string)
    ensures Lower(Lower(s)) == Lower(s)
  {
  }

  /** `q` occurs in `s` starting at position `i`. */
  predicate OccursAt(q: string, s: string, i: nat) {
    i + |q| <= |s| && s[i..i + |q|] == q
  }

  /** Plain substring test. */
  function Contains(s: string, q: string): (b: bool)
    ensures b <==> exists i: nat :: OccursAt(q, s, i)
  {
    if q <= s then
      assert OccursAt(q, s, 0);
      true
    else if s == [] then
      assert forall i: nat :: !OccursAt(q, s, i);
      false
    else
      assert forall i: nat :: OccursAt(q, s[1..], i) <==> OccursAt(q, s, i + 1) by {
        forall i: nat ensures OccursAt(q, s[1..], i) <==> OccursAt(q, s, i + 1) {
          if i + |q| <= |s| - 1 {
            assert s[1..][i..i + |q|] == s[i + 1..i + 1 + |q|];
          }
        }
      }
      assert !OccursAt(q, s, 0);
      assert forall i: nat :: OccursAt(q, s, i) ==> i > 0 && OccursAt(q, s[1..], i - 1);
      Contains(s[1..], q)
  }

  /** A text shorter than the query cannot contain it. */
  lemma ContainsNeedsRoom(s: string, q: string)
    ensures Contains(s, q) ==> |q| <= |s|
  {
  }

  /** The empty text occurs in every text. */
  lemma EmptyOccursEverywhere(s: string)
    ensures Contains(s, "")
  {
    assert OccursAt("", s, 0);
  }

  /** Case-insensitive search in a cell, with `na=False`: a missing cell never matches. */
  function MatchesIgnoringCase(cell: Option<string>, q: string): (b: bool)
    ensures cell.None? ==> !b
    ensures b <==> cell.Some? && exists i: nat :: OccursAt(Lower(q), Lower(cell.value), i)
  {
    cell.Some? && Contains(Lower(cell.value), Lower(q))
  }

  /** The search ignores letter case on both sides. */
  lemma MatchesIgnoringCaseSpec(cell: Option<string>, q: string)
    ensures MatchesIgnoringCase(cell, q) == MatchesIgnoringCase(cell, Lower(q))
    ensures cell.Some? ==> MatchesIgnoringCase(cell, q) == MatchesIgnoringCase(Some(Lower(cell.value)), q)
  {
    LowerIdempotent(q);
    if cell.Some? {
      LowerIdempotent(cell.value);
    }
  }

  // -------------------------------------------------------- Python's int()

  predicate IsDigit(c: char) { '0' <= c <= '9' }

  predicate IsDigits(s: string) {
    |s| > 0 && forall i :: 0 <= i < |s| ==> IsDigit(s[i])
  }

  /** The value of a decimal numeral, most significant digit first. */
  function DigitsValue(s: string): (n: nat)
    requires forall i :: 0 <= i < |s| ==> IsDigit(s[i])
  {
    if s == [] then 0
    else
      assert IsDigit(s[|s| - 1]);
      DigitsValue(s[..|s| - 1]) * 10 + (s[|s| - 1] as int - '0' as int)
  }

  /** `int(s)` for an optional sign followed by decimal digits; None where Python raises ValueError. */
  function ParseInt(s: string): (r: Option<int>)
    ensures r.Some? <==> IsDigits(s) || (|s| > 1 && (s[0] == '-' || s[0] == '+') && IsDigits(s[1..]))
    ensures IsDigits(s) ==> r == Some(DigitsValue(s))
    ensures |s| > 1 && s[0] == '-' && IsDigits(s[1..]) ==> r == Some(-(DigitsValue(s[1..]) as int))
    ensures |s| > 1 && s[0] == '+' && IsDigits(s[1..]) ==> r == Some(DigitsValue(s[1..]))
  {
    if |s| > 1 && s[0] == '-' && IsDigits(s[1..]) then Some(-(DigitsValue(s[1..]) as int))
    else if |s| > 1 && s[0] == '+' && IsDigits(s[1..]) then Some(DigitsValue(s[1..]))
    else if IsDigits(s) then Some(DigitsValue(s))
    else None
  }

  /** "2,020" becomes the year 2020 once its comma is stripped. */
  lemma ParseStrippedYear()
    ensures ParseInt(StripCommas("2,020")) == Some(2020)
  {
    ThousandsSeparatorRemoved();
    assert "2020"[..3] == "202" && "202"[..2] == "20" && "20"[..1] == "2" && "2"[..0] == "";
    assert DigitsValue("2") == 2;
    assert DigitsValue("20") == 20;
    assert DigitsValue("202") == 202;
    assert DigitsValue("2020") == 2020;
  }

  // ---------------------------------------------------- Python string order

  /** `a <= b` for Python strings: code point by code point, a proper prefix first. */
  predicate LexLe(a: string, b: string) {
    a == [] || (b != [] && (a[0] < b[0] || (a[0] == b[0] && LexLe(a[1..], b[1..]))))
  }

  lemma {:induction false} LexLeTotal(a: string, b: string)
    ensures LexLe(a, b) || LexLe(b, a)
  {
    if a != [] && b != [] && a[0] == b[0] {
      LexLeTotal(a[1..], b[1..]);
    }
  }

  lemma {:induction false} LexLeTransitive(a: string, b: string, c: string)
    requires LexLe(a, b) && LexLe(b, c)
    ensures LexLe(a, c)
  {
    if a != [] && a[0] == b[0] && b[0] == c[0] {
      LexLeTransitive(a[1..], b[1..], c[1..]);
    }
  }

  /** Python's string order is a total preorder (indeed a total order). */
  lemma LexLeTotalPreorder()
    ensures forall a, b :: LexLe(a, b) || LexLe(b, a)
    ensures forall a, b, c :: LexLe(a, b) && LexLe(b, c) ==> LexLe(a, c)
  {
    forall a, b ensures LexLe(a, b) || LexLe(b, a) { LexLeTotal(a, b); }
    forall a, b, c | LexLe(a, b) && LexLe(b, c) ensures LexLe(a, c) { LexLeTransitive(a, b, c); }
  }
}
