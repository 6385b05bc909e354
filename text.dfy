/**
 * The string helpers the pipeline scripts use on model replies and JSON fields:
 * Python's `str.strip()`, `str.replace(old, "")`, the code-fence cleaning applied to every
 * language-model reply, the f-string rendering of a possibly-null value, and `int(text)`.
 */
module Text {
  import opened Wrappers

  /** The characters for which Python's `str.isspace()` is true. */
  predicate IsSpace(c: char) {
    var n := c as int;
    n == 32 || 9 <= n <= 13 || 28 <= n <= 31 || n == 0x85 || n == 0xA0 || n == 0x1680
    || 0x2000 <= n <= 0x200A || n == 0x2028 || n == 0x2029 || n == 0x202F || n == 0x205F
    || n == 0x3000
  }

  /** The first position at or after `i` that is not whitespace (`|s|` if there is none). */
  function LeadingEnd(s: string, i: nat): (l: nat)
    requires i <= |s|
    ensures i <= l <= |s|
    decreases |s| - i
  {
    if i < |s| && IsSpace(s[i]) then LeadingEnd(s, i + 1) else i
  }

  /** The position just after the last non-whitespace character before `j` (0 if there is none). */
  function TrailingStart(s: string, j: nat): (r: nat)
    requires j <= |s|
    ensures r <= j
    decreases j
  {
    if 0 < j && IsSpace(s[j - 1]) then TrailingStart(s, j - 1) else j
  }

  /** `s.strip()`: drops the whitespace at both ends; a string of whitespace becomes empty. */
  function Strip(s: string): string {
    var l, r := LeadingEnd(s, 0), TrailingStart(s, |s|);
    if r <= l then [] else s[l..r]
  }

  lemma {:induction false} LeadingEndSpec(s: string, i: nat)
    requires i <= |s|
    ensures forall k :: i <= k < LeadingEnd(s, i) ==> IsSpace(s[k])
    ensures LeadingEnd(s, i) == |s| || !IsSpace(s[LeadingEnd(s, i)])
    decreases |s| - i
  {
    if i < |s| && IsSpace(s[i]) {
      LeadingEndSpec(s, i + 1);
    }
  }

  lemma {:induction false} TrailingStartSpec(s: string, j: nat)
    requires j <= |s|
    ensures forall k :: TrailingStart(s, j) <= k < j ==> IsSpace(s[k])
    ensures TrailingStart(s, j) == 0 || !IsSpace(s[TrailingStart(s, j) - 1])
    decreases j
  {
    if 0 < j && IsSpace(s[j - 1]) {
      TrailingStartSpec(s, j - 1);
    }
  }

  /**
   * What `strip` keeps is a slice of the input that neither begins nor ends with
   * whitespace, and everything it drops is whitespace.
   */
  lemma StripSpec(s: string)
    ensures exists l, r ::
      && 0 <= l <= r <= |s| && Strip(s) == s[l..r]
      && (forall k :: 0 <= k < l ==> IsSpace(s[k])) && (forall k :: r <= k < |s| ==> IsSpace(s[k]))
    ensures Strip(s) == [] || (!IsSpace(Strip(s)[0]) && !IsSpace(Strip(s)[|Strip(s)| - 1]))
  {
    var l, r := LeadingEnd(s, 0), TrailingStart(s, |s|);
    LeadingEndSpec(s, 0);
    TrailingStartSpec(s, |s|);
    if r <= l {
      assert l == |s|;
      assert Strip(s) == s[0..0];
    } else {
      assert Strip(s) == s[l..r];
    }
  }

  /** Stripping keeps a string whose two ends are not whitespace. */
  lemma StripKeepsTrimmed(s: string)
    requires s != [] && !IsSpace(s[0]) && !IsSpace(s[|s| - 1])
    ensures Strip(s) == s
  {
    assert LeadingEnd(s, 0) == 0;
    assert TrailingStart(s, |s|) == |s|;
  }

  /**
   * `s.replace(p, "")`: Python scans left to right and deletes every non-overlapping
   * occurrence of `p`.
   */
  function RemoveAll(s: string, p: string): string
    requires p != []
    decreases |s|
  {
    if |s| < |p| then s
    else if s[..|p|] == p then RemoveAll(s[|p|..], p)
    else [s[0]] + RemoveAll(s[1..], p)
  }

  const Fence: string := "```"
  const JsonFence: string := "```json"

  /** Three backticks in a row somewhere in `s`. */
  predicate HasFence(s: string) {
    exists i :: 0 <= i && i + 2 < |s| && s[i] == '`' && s[i + 1] == '`' && s[i + 2] == '`'
  }

  /**
   * The cleaning every script applies to a language-model reply before `json.loads`:
   * strip, delete every "```json", then delete every "```".
   */
  function CleanResponse(reply: string): string {
    RemoveAll(RemoveAll(Strip(reply), JsonFence), Fence)
  }

  /** A cleaned reply holds no fence, whatever the model sent. */
  lemma CleanResponseHasNoFence(reply: string)
    ensures !HasFence(CleanResponse(reply))
  {
    RemoveAllFenceLeavesNoFence(RemoveAll(Strip(reply), JsonFence));
  }

  /** What is left after deleting fences begins with a backtick only if the input did. */
  lemma RemoveFenceHead(t: string)
    ensures RemoveAll(t, Fence) != [] && RemoveAll(t, Fence)[0] == '`' ==> t != [] && t[0] == '`'
  {
  }

  /** ... and it begins with two backticks only if the input did. */
  lemma RemoveFenceTwoTicks(t: string)
    ensures |RemoveAll(t, Fence)| >= 2 && RemoveAll(t, Fence)[0] == '`' && RemoveAll(t, Fence)[1] == '`'
            ==> |t| >= 2 && t[0] == '`' && t[1] == '`'
  {
    if |t| >= 3 && t[..3] != Fence {
      RemoveFenceHead(t[1..]);
    }
  }

  /**
   * Deleting the fences cannot create a new one: each run of n backticks shrinks to n mod 3.
   */
  lemma {:induction false} RemoveAllFenceLeavesNoFence(s: string)
    ensures !HasFence(RemoveAll(s, Fence))
    decreases |s|
  {
    if |s| < 3 {
    } else if s[..3] == Fence {
      RemoveAllFenceLeavesNoFence(s[3..]);
    } else {
      var rest := RemoveAll(s[1..], Fence);
      RemoveAllFenceLeavesNoFence(s[1..]);
      RemoveFenceTwoTicks(s[1..]);
      var r := [s[0]] + rest;
      assert RemoveAll(s, Fence) == r;
      assert s[..3] == [s[0], s[1], s[2]];
      forall i | 0 <= i && i + 2 < |r|
        ensures !(r[i] == '`' && r[i + 1] == '`' && r[i + 2] == '`')
      {
        if i > 0 {
          assert r[i] == rest[i - 1] && r[i + 1] == rest[i] && r[i + 2] == rest[i + 1];
        }
      }
    }
  }

  /** Deleting a pattern that starts with a backtick leaves a backtick-free string as it is. */
  lemma {:induction false} RemoveAllKeepsTickFree(s: string, p: string)
    requires p != [] && p[0] == '`'
    requires forall k :: 0 <= k < |s| ==> s[k] != '`'
    ensures RemoveAll(s, p) == s
    decreases |s|
  {
    if |s| >= |p| {
      assert s[..|p|][0] == s[0];
      RemoveAllKeepsTickFree(s[1..], p);
    }
  }

  /** A reply that is bare JSON (no backticks, no surrounding whitespace) is left untouched. */
  lemma CleanKeepsPlainJson(reply: string)
    requires forall k :: 0 <= k < |reply| ==> reply[k] != '`'
    requires Strip(reply) == reply
    ensures CleanResponse(reply) == reply
  {
    RemoveAllKeepsTickFree(reply, JsonFence);
    RemoveAllKeepsTickFree(reply, Fence);
  }

  /** A backtick-free head is copied through unchanged by deleting a backtick pattern. */
  lemma {:induction false} RemoveAllTickFreeHead(s: string, t: string, p: string)
    requires p != [] && p[0] == '`'
    requires forall k :: 0 <= k < |s| ==> s[k] != '`'
    ensures RemoveAll(s + t, p) == s + RemoveAll(t, p)
    decreases |s|
  {
    if s == [] {
      assert s + t == t;
    } else {
      var u := s + t;
      assert u[0] == s[0] && u[1..] == s[1..] + t;
      if |u| < |p| {
        assert RemoveAll(t, p) == t;
      } else {
        assert u[..|p|] != p by { assert u[..|p|][0] == s[0]; }
        RemoveAllTickFreeHead(s[1..], t, p);
        assert RemoveAll(u, p) == [s[0]] + RemoveAll(u[1..], p);
        assert [s[0]] + s[1..] == s;
      }
    }
  }

  /** A reply wrapped in a ```json ... ``` block cleans to exactly the block's body. */
  lemma CleanFencedJson(body: string)
    requires forall k :: 0 <= k < |body| ==> body[k] != '`'
    ensures CleanResponse(JsonFence + body + Fence) == body
  {
    var reply := JsonFence + body + Fence;
    assert reply[0] == '`' && reply[|reply| - 1] == '`';
    StripKeepsTrimmed(reply);
    assert reply[..|JsonFence|] == JsonFence;
    assert reply[|JsonFence|..] == body + Fence;
    RemoveAllTickFreeHead(body, Fence, JsonFence);
    assert RemoveAll(reply, JsonFence) == body + Fence;
    RemoveAllTickFreeHead(body, Fence, Fence);
    assert Fence[..|Fence|] == Fence && Fence[|Fence|..] == [];
    assert RemoveAll(Fence, Fence) == [];
    assert body + [] == body;
  }

  /** How an f-string shows a possibly-null value: Python prints None as "None". */
  function Render(v: Option<string>): string {
    match v
    case Some(s) => s
    case None => "None"
  }

  predicate IsDigit(c: char) { '0' <= c <= '9' }

  predicate AllDigits(s: string) { forall k :: 0 <= k < |s| ==> IsDigit(s[k]) }

  function DigitsValue(s: string): nat
    requires AllDigits(s)
  {
    if s == [] then 0 else 10 * DigitsValue(s[..|s| - 1]) + (s[|s| - 1] as int - '0' as int)
  }

  /**
   * Python's `int(text)` on a decimal literal: surrounding whitespace, an optional sign and
   * at least one digit. None stands for the ValueError `int` raises otherwise.
   */
  function ParseInt(s: string): Option<int> {
    var t := Strip(s);
    if |t| >= 2 && (t[0] == '-' || t[0] == '+') && AllDigits(t[1..]) then
      var v: int := DigitsValue(t[1..]);
      Some(if t[0] == '-' then -v else v)
    else if t != [] && AllDigits(t) then
      Some(DigitsValue(t))
    else
      None
  }

  function DigitChar(d: nat): char
    requires d < 10
  {
    ('0' as int + d) as char
  }

  /** `str(n)` for a natural number. */
  function ShowNat(n: nat): string
    decreases n
  {
    if n < 10 then [DigitChar(n)] else ShowNat(n / 10) + [DigitChar(n % 10)]
  }

  /** `str(n)`. */
  function ShowInt(n: int): string {
    if n < 0 then "-" + ShowNat(-n) else ShowNat(n)
  }

  lemma {:induction false} ShowNatDigits(n: nat)
    ensures ShowNat(n) != [] && AllDigits(ShowNat(n)) && DigitsValue(ShowNat(n)) == n
    decreases n
  {
    if n >= 10 {
      ShowNatDigits(n / 10);
      var p := ShowNat(n / 10);
      var s := p + [DigitChar(n % 10)];
      assert s[..|s| - 1] == p;
    }
  }

  lemma DigitNotSpace(c: char)
    requires IsDigit(c)
    ensures !IsSpace(c)
  {
  }

  /** `int` reads back a non-empty digit string. */
  lemma ParseUnsigned(d: string)
    requires d != [] && AllDigits(d)
    ensures ParseInt(d) == Some(DigitsValue(d) as int)
  {
    DigitNotSpace(d[0]);
    DigitNotSpace(d[|d| - 1]);
    StripKeepsTrimmed(d);
    assert !(d[0] == '-' || d[0] == '+');
  }

  /** `int` reads back a non-empty digit string after a minus sign. */
  lemma ParseNegative(d: string)
    requires d != [] && AllDigits(d)
    ensures ParseInt("-" + d) == Some(-(DigitsValue(d) as int))
  {
    var s := "-" + d;
    assert s[1..] == d;
    assert s[0] == '-' && s[|s| - 1] == d[|d| - 1];
    DigitNotSpace(d[|d| - 1]);
    StripKeepsTrimmed(s);
  }

  /** `int(str(n)) == n`: printing an id and parsing it back gives the id. */
  lemma IntRoundTrip(n: int)
    ensures ParseInt(ShowInt(n)) == Some(n)
  {
    if n < 0 {
      ShowNatDigits(-n);
      ParseNegative(ShowNat(-n));
    } else {
      ShowNatDigits(n);
      ParseUnsigned(ShowNat(n));
    }
  }
}
