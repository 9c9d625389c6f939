/**
  The string operations the statement builders use: back-quoting a name,
  PHP's `rtrim`, `strtoupper` and `substr($s, 0, n)`, and lists joined by a
  separator.
 */
module SqlText {

  /** A table or column name as it appears in a statement. */
  function Backticked(name: string): string {
    "`" + name + "`"
  }

  /** The characters `rtrim($sql, ', ')` strips. */
  const TrimChars: set<char> := {',', ' '}

  /** PHP's `rtrim($s, $chars)`: the longest prefix of s after which only characters of chars follow. */
  function RTrim(s: string, chars: set<char>): (r: string)
    ensures r <= s
    ensures r == [] || r[|r| - 1] !in chars
    ensures forall k | |r| <= k < |s| :: s[k] in chars
    decreases |s|
  {
    if s != [] && s[|s| - 1] in chars then RTrim(s[..|s| - 1], chars) else s
  }

  /** The items with sep between each two of them. */
  function Join(items: seq<string>, sep: string): string
    decreases |items|
  {
    if items == [] then ""
    else if |items| == 1 then items[0]
    else Join(items[..|items| - 1], sep) + sep + items[|items| - 1]
  }

  /** Each item followed by sep: what a loop of `$sql .= "..." . ", "` has appended before the trim. */
  function Terminated(items: seq<string>, sep: string): string
    decreases |items|
  {
    if items == [] then "" else Terminated(items[..|items| - 1], sep) + items[|items| - 1] + sep
  }

  lemma AppendAssoc(a: string, b: string, c: string)
    ensures a + b + c == a + (b + c)
  {
  }

  /** sql := sql + item + sep, as seen by Terminated. */
  lemma TerminatedStep(items: seq<string>, item: string, sep: string)
    ensures Terminated(items + [item], sep) == Terminated(items, sep) + (item + sep)
  {
    assert (items + [item])[..|items|] == items;
  }

  lemma JoinTwo(a: string, b: string, sep: string)
    ensures Join([a, b], sep) == a + sep + b
  {
    assert [a, b][..1] == [a];
  }

  /** The list of a `SET` clause once trimmed: nothing, or a space and the items separated by ", ". */
  function SpacedList(items: seq<string>): string {
    if items == [] then "" else " " + Join(items, ", ")
  }

  /** s ends with a character rtrim keeps. */
  predicate EndsOutside(s: string, chars: set<char>) {
    s != [] && s[|s| - 1] !in chars
  }

  lemma {:induction false} TerminatedIsJoin(items: seq<string>, sep: string)
    requires items != []
    ensures Terminated(items, sep) == Join(items, sep) + sep
    decreases |items|
  {
    if |items| > 1 {
      TerminatedIsJoin(items[..|items| - 1], sep);
    } else {
      assert items[..0] == [];
    }
  }

  lemma JoinEndsOutside(items: seq<string>, sep: string, chars: set<char>)
    requires items != []
    requires forall i | 0 <= i < |items| :: EndsOutside(items[i], chars)
    ensures EndsOutside(Join(items, sep), chars)
  {
    assert EndsOutside(items[|items| - 1], chars);
  }

  /** rtrim removes a tail of trimmed characters and stops at the first character it keeps. */
  lemma {:induction false} RTrimTail(x: string, tail: string, chars: set<char>)
    requires EndsOutside(x, chars)
    requires forall k | 0 <= k < |tail| :: tail[k] in chars
    ensures RTrim(x + tail, chars) == x
    decreases |tail|
  {
    var s := x + tail;
    if tail == [] {
      assert s == x;
    } else {
      assert s[|s| - 1] == tail[|tail| - 1];
      assert s[..|s| - 1] == x + tail[..|tail| - 1];
      RTrimTail(x, tail[..|tail| - 1], chars);
    }
  }

  /**
    A list built as "lead " followed by each item and ", ", once trimmed,
    is lead followed by the spaced, comma-separated items; with no items it
    is lead alone.
   */
  lemma TrimmedList(lead: string, items: seq<string>)
    requires EndsOutside(lead, TrimChars)
    requires forall i | 0 <= i < |items| :: EndsOutside(items[i], TrimChars)
    ensures RTrim(lead + " " + Terminated(items, ", "), TrimChars) == lead + SpacedList(items)
  {
    if items == [] {
      assert lead + " " + Terminated(items, ", ") == lead + " ";
      RTrimTail(lead, " ", TrimChars);
    } else {
      var j := Join(items, ", ");
      TerminatedIsJoin(items, ", ");
      JoinEndsOutside(items, ", ", TrimChars);
      ConcatEndsOutside(lead + " ", j, TrimChars);
      AppendAssoc(lead + " ", j, ", ");
      AppendAssoc(lead, " ", j);
      RTrimTail(lead + " " + j, ", ", TrimChars);
    }
  }

  lemma ConcatEndsOutside(a: string, b: string, chars: set<char>)
    requires EndsOutside(b, chars)
    ensures EndsOutside(a + b, chars)
  {
    assert (a + b)[|a + b| - 1] == b[|b| - 1];
  }

  /** PHP's `strtoupper` for one character: ASCII letters only. */
  function UpperChar(c: char): char {
    if 'a' <= c <= 'z' then (c as int - 32) as char else c
  }

  /** PHP's `strtoupper`. */
  function Upper(s: string): (u: string)
    ensures |u| == |s|
    ensures forall i | 0 <= i < |s| :: u[i] == UpperChar(s[i])
  {
    seq(|s|, i requires 0 <= i < |s| => UpperChar(s[i]))
  }

  /** PHP's `substr($s, 0, $n)`: the first n characters, or all of a shorter s. */
  function Prefix(s: string, n: nat): (p: string)
    ensures p == s[..if |s| < n then |s| else n]
  {
    if |s| <= n then s else s[..n]
  }
}
