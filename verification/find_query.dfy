/** The options of a find query and the text-document search flags they
    translate to. */
module FindQueries {

  /** A set of `QTextDocument::FindFlag` values. */
  type FindFlags = bv32

  const FIND_BACKWARD: FindFlags := 0x1
  const FIND_CASE_SENSITIVELY: FindFlags := 0x2
  const FIND_WHOLE_WORDS: FindFlags := 0x4

  predicate Has(f: FindFlags, flag: FindFlags) {
    f & flag != 0
  }

  datatype FindQuery = FindQuery(
    expression: string,
    wrap: bool,
    wholeWords: bool,
    caseSensitive: bool,
    reverse: bool,
    regex: bool)

  /** A new query: an empty expression, wrapping on, every other option off. */
  function NewQuery(): (q: FindQuery)
    ensures q.expression == "" && q.wrap
    ensures !q.wholeWords && !q.caseSensitive && !q.reverse && !q.regex
  {
    FindQuery("", true, false, false, false, false)
  }

  // Each setter changes its own option and nothing else.

  function SetExpression(q: FindQuery, e: string): (r: FindQuery)
    ensures r.expression == e
    ensures r.wrap == q.wrap && r.wholeWords == q.wholeWords && r.caseSensitive == q.caseSensitive
    ensures r.reverse == q.reverse && r.regex == q.regex
  {
    q.(expression := e)
  }

  function SetWrapping(q: FindQuery, w: bool): (r: FindQuery)
    ensures r.wrap == w
    ensures r.expression == q.expression && r.wholeWords == q.wholeWords && r.caseSensitive == q.caseSensitive
    ensures r.reverse == q.reverse && r.regex == q.regex
  {
    q.(wrap := w)
  }

  function SetWholeWords(q: FindQuery, w: bool): (r: FindQuery)
    ensures r.wholeWords == w
    ensures r.expression == q.expression && r.wrap == q.wrap && r.caseSensitive == q.caseSensitive
    ensures r.reverse == q.reverse && r.regex == q.regex
  {
    q.(wholeWords := w)
  }

  function SetCaseSensitive(q: FindQuery, c: bool): (r: FindQuery)
    ensures r.caseSensitive == c
    ensures r.expression == q.expression && r.wrap == q.wrap && r.wholeWords == q.wholeWords
    ensures r.reverse == q.reverse && r.regex == q.regex
  {
    q.(caseSensitive := c)
  }

  function SetReversed(q: FindQuery, rev: bool): (r: FindQuery)
    ensures r.reverse == rev
    ensures r.expression == q.expression && r.wrap == q.wrap && r.wholeWords == q.wholeWords
    ensures r.caseSensitive == q.caseSensitive && r.regex == q.regex
  {
    q.(reverse := rev)
  }

  function SetRegularExpression(q: FindQuery, x: bool): (r: FindQuery)
    ensures r.regex == x
    ensures r.expression == q.expression && r.wrap == q.wrap && r.wholeWords == q.wholeWords
    ensures r.caseSensitive == q.caseSensitive && r.reverse == q.reverse
  {
    q.(regex := x)
  }

  /** `getFindFlags(r)`: backward only when asked for and the query is
      reversed, then case sensitivity and whole words as the options say,
      and nothing else. */
  function GetFindFlags(q: FindQuery, withReverse: bool): (f: FindFlags)
    ensures Has(f, FIND_BACKWARD) <==> withReverse && q.reverse
    ensures Has(f, FIND_CASE_SENSITIVELY) <==> q.caseSensitive
    ensures Has(f, FIND_WHOLE_WORDS) <==> q.wholeWords
    ensures f & !(FIND_BACKWARD | FIND_CASE_SENSITIVELY | FIND_WHOLE_WORDS) == 0
  {
    var f0: FindFlags := 0;
    var f1 := if withReverse && q.reverse then f0 | FIND_BACKWARD else f0;
    var f2 := if q.caseSensitive then f1 | FIND_CASE_SENSITIVELY else f1;
    if q.wholeWords then f2 | FIND_WHOLE_WORDS else f2
  }

  /** The older find-query class: the same options, defaults and flag
      translation. */
  function LegacyGetFindFlags(q: FindQuery, withReverse: bool): (f: FindFlags)
    ensures f == GetFindFlags(q, withReverse)
  {
    var f0: FindFlags := 0;
    var f1 := if withReverse && q.reverse then f0 | FIND_BACKWARD else f0;
    var f2 := if q.caseSensitive then f1 | FIND_CASE_SENSITIVELY else f1;
    if q.wholeWords then f2 | FIND_WHOLE_WORDS else f2
  }

  /** The flags read back the options they encode: two queries give the same
      flags exactly when they agree on the encoded options. */
  lemma FlagsDetermineOptions(q: FindQuery, p: FindQuery, withReverse: bool)
    ensures GetFindFlags(q, withReverse) == GetFindFlags(p, withReverse) <==>
      && (withReverse ==> q.reverse == p.reverse)
      && q.caseSensitive == p.caseSensitive
      && q.wholeWords == p.wholeWords
  {
    var f := GetFindFlags(q, withReverse);
    var g := GetFindFlags(p, withReverse);
    if f != g {
      FlagsFromBits(f, g);
    }
  }

  /** Two flag sets with no bits beyond the three known flags differ on one
      of those three. */
  lemma FlagsFromBits(f: FindFlags, g: FindFlags)
    requires f & !(FIND_BACKWARD | FIND_CASE_SENSITIVELY | FIND_WHOLE_WORDS) == 0
    requires g & !(FIND_BACKWARD | FIND_CASE_SENSITIVELY | FIND_WHOLE_WORDS) == 0
    requires f != g
    ensures Has(f, FIND_BACKWARD) != Has(g, FIND_BACKWARD)
      || Has(f, FIND_CASE_SENSITIVELY) != Has(g, FIND_CASE_SENSITIVELY)
      || Has(f, FIND_WHOLE_WORDS) != Has(g, FIND_WHOLE_WORDS)
  {}

  /** Wrapping, regular expressions and the expression never reach the flags. */
  lemma FlagsIgnoreOtherOptions(q: FindQuery, e: string, w: bool, x: bool, withReverse: bool)
    ensures GetFindFlags(SetRegularExpression(SetWrapping(SetExpression(q, e), w), x), withReverse)
      == GetFindFlags(q, withReverse)
  {
    FlagsDetermineOptions(SetRegularExpression(SetWrapping(SetExpression(q, e), w), x), q, withReverse);
  }

  /** A new query searches forward, case-insensitively, on any substring. */
  lemma NewQueryHasNoFlags(withReverse: bool)
    ensures GetFindFlags(NewQuery(), withReverse) == 0
  {}
}
