/**
 * Field quoting for the CSV export, in the manner of section 2 of RFC 4180:
 * a field holding a comma, a double quote or a line feed is enclosed in
 * double quotes and each double quote inside it is written twice.
 */
module Csv {

  /** The field needs quoting: it holds a comma, a double quote or a line feed. */
  predicate NeedsQuoting(s: string) {
    ',' in s || '"' in s || '\n' in s
  }

  /** Doubles every double quote of `s`, leaving the other characters alone. */
  function DoubleQuotes(s: string): (r: string)
    ensures |r| >= |s|
    ensures |r| == |s| + multiset(s)['"']
  {
    if |s| == 0 then ""
    else
      assert s == [s[0]] + s[1..];
      (if s[0] == '"' then "\"\"" else [s[0]]) + DoubleQuotes(s[1..])
  }

  /** `escapeCSV`: the field as it is written into the exported file. */
  function EscapeField(s: string): (r: string)
    ensures !NeedsQuoting(s) ==> r == s
    ensures NeedsQuoting(s) ==> |r| >= |s| + 2 && r[0] == '"' && r[|r| - 1] == '"'
    ensures IsEscapedField(r) || IsPlainField(r)
    ensures ReadField(r) == s
  {
    if NeedsQuoting(s) then
      EscapedBodyOfDoubled(s);
      UndoubleDoubled(s);
      "\"" + DoubleQuotes(s) + "\""
    else
      s
  }

  // ---------------------------------------------------------------------
  // The reading side: what a CSV reader makes of one field
  // ---------------------------------------------------------------------

  /** A field written without quotes: no comma, double quote or line feed. */
  predicate IsPlainField(t: string) {
    !NeedsQuoting(t)
  }

  /**
   * The inside of a quoted field: every double quote belongs to a doubled
   * pair, so the field cannot end early.
   */
  predicate IsEscapedBody(t: string)
    decreases |t|
  {
    if |t| == 0 then true
    else if t[0] == '"' then |t| >= 2 && t[1] == '"' && IsEscapedBody(t[2..])
    else IsEscapedBody(t[1..])
  }

  /** A quoted field: a double quote, an escaped body and a closing double quote. */
  predicate IsEscapedField(t: string) {
    |t| >= 2 && t[0] == '"' && t[|t| - 1] == '"' && IsEscapedBody(t[1..|t| - 1])
  }

  /** Collapses each doubled double quote to one. */
  function Undouble(t: string): string
    decreases |t|
  {
    if |t| == 0 then ""
    else if |t| >= 2 && t[0] == '"' && t[1] == '"' then "\"" + Undouble(t[2..])
    else [t[0]] + Undouble(t[1..])
  }

  /** Reads one field: a quoted field loses its quotes and its doubled quotes; any other is taken as is. */
  function ReadField(t: string): string {
    if |t| >= 2 && t[0] == '"' && t[|t| - 1] == '"' then Undouble(t[1..|t| - 1]) else t
  }

  lemma {:induction false} EscapedBodyOfDoubled(s: string)
    ensures IsEscapedBody(DoubleQuotes(s))
    decreases |s|
  {
    if |s| > 0 {
      EscapedBodyOfDoubled(s[1..]);
      var rest := DoubleQuotes(s[1..]);
      if s[0] == '"' {
        assert ("\"\"" + rest)[2..] == rest;
      } else {
        assert ([s[0]] + rest)[1..] == rest;
      }
    }
  }

  /** Collapsing doubled quotes undoes doubling them. */
  lemma {:induction false} UndoubleDoubled(s: string)
    ensures Undouble(DoubleQuotes(s)) == s
    decreases |s|
  {
    if |s| > 0 {
      UndoubleDoubled(s[1..]);
      var rest := DoubleQuotes(s[1..]);
      if s[0] == '"' {
        assert ("\"\"" + rest)[2..] == rest;
      } else {
        var d := [s[0]] + rest;
        assert d[1..] == rest;
        assert d[0] != '"';
      }
      assert s == [s[0]] + s[1..];
    }
  }
}
