/**
 * The text form of a one-dimensional Postgres array, as array output writes it: the
 * elements between braces, separated by commas, `NULL` for a null element, and an element
 * in double quotes (with `"` and `\` escaped by a backslash) whenever it could otherwise be
 * misread. This is the text a TEXT column receives when an array is assigned to it.
 */
module PgArray {
  import opened Wrappers

  /** The whitespace characters of the Postgres scanner. */
  predicate IsScannerSpace(c: char) {
    c == ' ' || c == '\t' || c == '\n' || c == '\r' || c == '\U{B}' || c == '\U{C}'
  }

  /** A character that forces an element into quotes. */
  predicate IsSpecial(c: char) {
    c == '"' || c == '\\' || c == '{' || c == '}' || c == ',' || IsScannerSpace(c)
  }

  /** ASCII upper case, as `pg_strcasecmp` folds letters. */
  function Upper(c: char): char {
    if 'a' <= c <= 'z' then (c as int - 'a' as int + 'A' as int) as char else c
  }

  /** The word `NULL` in any mix of cases. */
  predicate IsNullWord(s: string) {
    |s| == 4 && Upper(s[0]) == 'N' && Upper(s[1]) == 'U' && Upper(s[2]) == 'L' && Upper(s[3]) == 'L'
  }

  /** Array output quotes an empty element, one that reads as `NULL`, and one holding a special character. */
  predicate NeedsQuotes(s: string) {
    s == [] || IsNullWord(s) || exists i :: 0 <= i < |s| && IsSpecial(s[i])
  }

  /** The body of a quoted element: a backslash before each `"` and `\`. */
  function Escape(s: string): string
    decreases |s|
  {
    if s == [] then []
    else (if s[0] == '"' || s[0] == '\\' then ['\\', s[0]] else [s[0]]) + Escape(s[1..])
  }

  /** One element as array output writes it. */
  function ElementText(e: Option<string>): (t: string)
    ensures t != [] && t[0] != ','
  {
    match e
    case None => "NULL"
    case Some(s) => if NeedsQuotes(s) then "\"" + Escape(s) + "\"" else s
  }

  /** The elements, separated by commas. */
  function Join(es: seq<Option<string>>): string
    requires es != []
    decreases |es|
  {
    if |es| == 1 then ElementText(es[0]) else ElementText(es[0]) + "," + Join(es[1..])
  }

  /** The whole array: `{}` when it is empty. */
  function Literal(es: seq<Option<string>>): string {
    if es == [] then "{}" else "{" + Join(es) + "}"
  }

  /**
   * The reading of an array literal that array output writes: a quoted element runs to the
   * closing quote and loses its escapes, an unquoted one runs to the next comma and is a
   * null when it spells `NULL`. After a quoted element, what remains starts after its
   * closing quote.
   */
  function ReadQuoted(s: string): (r: Option<(string, string)>)
    ensures r.Some? ==> |r.value.1| < |s|
    decreases |s|
  {
    if s == [] then None
    else if s[0] == '"' then Some(([], s[1..]))
    else if s[0] == '\\' then
      if |s| < 2 then None
      else match ReadQuoted(s[2..])
        case None => None
        case Some((c, rest)) => Some(([s[1]] + c, rest))
    else match ReadQuoted(s[1..])
      case None => None
      case Some((c, rest)) => Some(([s[0]] + c, rest))
  }

  function ReadUnquoted(s: string): (r: (string, string))
    ensures |r.1| <= |s|
    decreases |s|
  {
    if s == [] || s[0] == ',' then ([], s)
    else
      var (t, rest) := ReadUnquoted(s[1..]);
      ([s[0]] + t, rest)
  }

  function ReadElement(s: string): (r: Option<(Option<string>, string)>)
    ensures r.Some? ==> |r.value.1| <= |s|
  {
    if s != [] && s[0] == '"' then
      match ReadQuoted(s[1..])
      case None => None
      case Some((c, rest)) => Some((Some(c), rest))
    else
      var (t, rest) := ReadUnquoted(s);
      Some((if IsNullWord(t) then None else Some(t), rest))
  }

  function ReadItems(s: string): Option<seq<Option<string>>>
    decreases |s|
  {
    match ReadElement(s)
    case None => None
    case Some((e, rest)) =>
      if rest == [] then Some([e])
      else if rest[0] != ',' then None
      else match ReadItems(rest[1..])
        case None => None
        case Some(es) => Some([e] + es)
  }

  function ReadArray(t: string): Option<seq<Option<string>>> {
    if t == "{}" then Some([])
    else if |t| >= 2 && t[0] == '{' && t[|t| - 1] == '}' then ReadItems(t[1..|t| - 1])
    else None
  }

  /** A quoted element reads back as the text that was escaped. */
  lemma {:induction false} QuotedReadsBack(s: string, rest: string)
    ensures ReadQuoted(Escape(s) + "\"" + rest) == Some((s, rest))
    decreases |s|
  {
    if s == [] {
      assert Escape(s) + "\"" + rest == ['"'] + rest;
    } else {
      QuotedReadsBack(s[1..], rest);
      var head := if s[0] == '"' || s[0] == '\\' then ['\\', s[0]] else [s[0]];
      var t := Escape(s) + "\"" + rest;
      assert t == head + (Escape(s[1..]) + "\"" + rest);
      if s[0] == '"' || s[0] == '\\' {
        assert t[2..] == Escape(s[1..]) + "\"" + rest;
      } else {
        assert t[1..] == Escape(s[1..]) + "\"" + rest;
      }
      assert [s[0]] + s[1..] == s;
    }
  }

  /** An element without a comma, followed by the end or a comma, reads back whole. */
  lemma {:induction false} UnquotedReadsBack(s: string, rest: string)
    requires forall i :: 0 <= i < |s| ==> s[i] != ','
    requires rest == [] || rest[0] == ','
    ensures ReadUnquoted(s + rest) == (s, rest)
    decreases |s|
  {
    if s == [] {
      assert s + rest == rest;
    } else {
      UnquotedReadsBack(s[1..], rest);
      assert (s + rest)[1..] == s[1..] + rest;
      assert [s[0]] + s[1..] == s;
    }
  }

  lemma ElementReadsBack(e: Option<string>, rest: string)
    requires rest == [] || rest[0] == ','
    ensures ReadElement(ElementText(e) + rest) == Some((e, rest))
  {
    match e
    case None =>
      UnquotedReadsBack("NULL", rest);
    case Some(s) =>
      if NeedsQuotes(s) {
        QuotedReadsBack(s, rest);
        assert ElementText(e) + rest == "\"" + (Escape(s) + "\"" + rest);
      } else {
        assert forall i :: 0 <= i < |s| ==> !IsSpecial(s[i]);
        UnquotedReadsBack(s, rest);
      }
  }

  lemma {:induction false} ItemsReadBack(es: seq<Option<string>>)
    requires es != []
    ensures ReadItems(Join(es)) == Some(es)
    decreases |es|
  {
    if |es| == 1 {
      ElementReadsBack(es[0], []);
      assert ElementText(es[0]) + [] == Join(es);
      assert [es[0]] == es;
    } else {
      var tail := Join(es[1..]);
      ElementReadsBack(es[0], "," + tail);
      assert Join(es) == ElementText(es[0]) + ("," + tail);
      ItemsReadBack(es[1..]);
      assert ("," + tail)[1..] == tail;
      assert [es[0]] + es[1..] == es;
    }
  }

  /** Whatever array output writes, reading it gives back the elements. */
  lemma LiteralReadsBack(es: seq<Option<string>>)
    ensures ReadArray(Literal(es)) == Some(es)
  {
    if es != [] {
      var t := Literal(es);
      assert |Join(es)| >= 1 by {
        if |es| > 1 {
          assert Join(es) == ElementText(es[0]) + "," + Join(es[1..]);
        }
      }
      assert t[1..|t| - 1] == Join(es);
      ItemsReadBack(es);
    }
  }
}
