/**
  The string helpers of Go's `strings` package that the server relies on:
  TrimSpace, Split, Join, Cut, CutPrefix and EqualFold. Strings are octet
  strings (one `char` per octet, as Go strings are byte strings), so
  whitespace and case folding are restricted to ASCII.
 */
module Text {
  import opened Optional

  /** The ASCII octets `strings.TrimSpace` removes: HT, LF, VT, FF, CR and space. */
  predicate IsSpace(c: char) {
    c == ' ' || c == '\t' || c == '\n' || c == '\r' || c == 11 as char || c == 12 as char
  }

  /** True when `s` neither starts nor ends with whitespace. */
  predicate IsTrimmed(s: string) {
    s == [] || (!IsSpace(s[0]) && !IsSpace(s[|s| - 1]))
  }

  /** `s` without its leading whitespace. */
  function TrimLeft(s: string): (r: string)
    ensures |r| <= |s|
    ensures r == s[|s| - |r|..]
    ensures r == [] || !IsSpace(r[0])
    decreases |s|
  {
    if |s| > 0 && IsSpace(s[0]) then TrimLeft(s[1..]) else s
  }

  /** `s` without its trailing whitespace. */
  function TrimRight(s: string): (r: string)
    ensures |r| <= |s|
    ensures r == s[..|r|]
    ensures r == [] || !IsSpace(r[|r| - 1])
    decreases |s|
  {
    if |s| > 0 && IsSpace(s[|s| - 1]) then TrimRight(s[..|s| - 1]) else s
  }

  /** Go's `strings.TrimSpace`: the longest infix of `s` that neither starts
      nor ends with whitespace, everything cut off being whitespace. */
  function TrimSpace(s: string): (r: string)
    ensures IsTrimmed(r)
    ensures |r| <= |s|
    ensures IsTrimmed(s) ==> r == s
  {
    TrimRight(TrimLeft(s))
  }

  /** Whitespace around `s` does not survive trimming. */
  lemma {:induction false} TrimSpaceStrip(pre: string, s: string, post: string)
    requires forall i :: 0 <= i < |pre| ==> IsSpace(pre[i])
    requires forall i :: 0 <= i < |post| ==> IsSpace(post[i])
    requires IsTrimmed(s)
    ensures TrimSpace(pre + s + post) == s
  {
    if pre == [] {
      assert pre + s + post == s + post;
      if s == [] {
        TrimSpaceBlank(post);
      } else {
        TrimLeftStops(s + post);
      }
      TrimRightDrops(s, post);
    } else {
      assert (pre + s + post)[1..] == pre[1..] + s + post;
      TrimSpaceStrip(pre[1..], s, post);
    }
  }

  /** An all-whitespace string trims to the empty string. */
  lemma {:induction false} TrimSpaceBlank(s: string)
    requires forall i :: 0 <= i < |s| ==> IsSpace(s[i])
    ensures TrimSpace(s) == []
  {
    if s != [] {
      assert TrimLeft(s) == TrimLeft(s[1..]);
      TrimSpaceBlank(s[1..]);
    }
  }

  lemma {:induction false} TrimLeftStops(s: string)
    requires s == [] || !IsSpace(s[0])
    ensures TrimLeft(s) == s
  {
  }

  lemma {:induction false} TrimRightDrops(s: string, post: string)
    requires s == [] || !IsSpace(s[|s| - 1])
    requires forall i :: 0 <= i < |post| ==> IsSpace(post[i])
    ensures TrimRight(s + post) == s
    decreases |post|
  {
    if post == [] {
      assert s + post == s;
    } else {
      assert (s + post)[..|s + post| - 1] == s + post[..|post| - 1];
      TrimRightDrops(s, post[..|post| - 1]);
    }
  }

  /** The position of the first `c` in `s`, if any. */
  function IndexOf(s: string, c: char): (r: Option<nat>)
    ensures r.None? <==> c !in s
    ensures r.Some? ==> r.value < |s| && s[r.value] == c && c !in s[..r.value]
    decreases |s|
  {
    if |s| == 0 then None
    else if s[0] == c then Some(0)
    else
      match IndexOf(s[1..], c)
      case None => None
      case Some(i) =>
        assert s[..i + 1] == [s[0]] + s[1..][..i];
        Some(i + 1)
  }

  /** Go's `strings.Join`: the parts with `sep` between consecutive ones. */
  function Join(parts: seq<string>, sep: string): string
    decreases |parts|
  {
    if |parts| == 0 then ""
    else if |parts| == 1 then parts[0]
    else parts[0] + sep + Join(parts[1..], sep)
  }

  /** Three parts joined: the shape of a well-formed request line. */
  lemma {:induction false} JoinThree(parts: seq<string>, sep: string)
    requires |parts| == 3
    ensures Join(parts, sep) == parts[0] + sep + parts[1] + sep + parts[2]
  {
    assert parts[1..][1..] == [parts[2]];
    assert Join(parts[1..][1..], sep) == parts[2];
    assert Join(parts[1..], sep) == parts[1] + sep + parts[2];
    assert Join(parts, sep) == parts[0] + sep + (parts[1] + sep + parts[2]);
  }

  /** Go's `strings.Split` with a one-octet separator: the pieces between
      occurrences of `sep`, always one more than there are occurrences, and
      joining them back with `sep` gives `s` again. */
  function Split(s: string, sep: char): (parts: seq<string>)
    ensures |parts| == multiset(s)[sep] + 1
    ensures forall i :: 0 <= i < |parts| ==> sep !in parts[i]
    ensures Join(parts, [sep]) == s
    decreases |s|
  {
    match IndexOf(s, sep)
    case None =>
      assert multiset(s)[sep] == 0;
      [s]
    case Some(i) =>
      var tail := Split(s[i + 1..], sep);
      assert s == s[..i] + [sep] + s[i + 1..];
      assert multiset(s) == multiset(s[..i]) + multiset([sep]) + multiset(s[i + 1..]);
      assert ([s[..i]] + tail)[1..] == tail;
      [s[..i]] + tail
  }

  /** Go's `strings.Cut`: the text before and after the first `sep`, or
      nothing when `sep` does not occur. */
  function Cut(s: string, sep: char): (r: Option<(string, string)>)
    ensures r.None? <==> sep !in s
    ensures r.Some? ==> r.value.0 + [sep] + r.value.1 == s && sep !in r.value.0
  {
    match IndexOf(s, sep)
    case None => None
    case Some(i) =>
      assert s == s[..i] + [sep] + s[i + 1..];
      Some((s[..i], s[i + 1..]))
  }

  /** Go's `strings.CutPrefix`, keeping only the text: `s` without `prefix`
      when it starts with it, `s` unchanged otherwise. */
  function CutPrefix(s: string, prefix: string): (r: string)
    ensures prefix <= s ==> prefix + r == s
    ensures !(prefix <= s) ==> r == s
  {
    if prefix <= s then s[|prefix|..] else s
  }

  /** ASCII lower-casing of one octet. */
  function Lower(c: char): char {
    if 'A' <= c <= 'Z' then (c as int + 32) as char else c
  }

  /** Go's `strings.EqualFold`, restricted to ASCII case folding. */
  predicate EqualFold(a: string, b: string) {
    |a| == |b| && forall i :: 0 <= i < |a| ==> Lower(a[i]) == Lower(b[i])
  }

  /** The strings one after another: the octets of consecutive lines, or
      of successive writes to a `strings.Builder`. */
  function Concat(parts: seq<string>): string
    decreases |parts|
  {
    if parts == [] then "" else parts[0] + Concat(parts[1..])
  }

  /** Cutting a string built around its first `sep` gives back the two sides. */
  lemma {:induction false} CutAtFirst(a: string, sep: char, b: string)
    requires sep !in a
    ensures Cut(a + [sep] + b, sep) == Some((a, b))
  {
    var s := a + [sep] + b;
    assert s[|a|] == sep;
    var i := IndexOf(s, sep).value;
    assert s[..i] == a && s[i + 1..] == b;
  }

  /** Splitting at the first separator: the piece before it, then the pieces of the rest. */
  lemma {:induction false} SplitAtFirst(a: string, sep: char, b: string)
    requires sep !in a
    ensures Split(a + [sep] + b, sep) == [a] + Split(b, sep)
  {
    CutAtFirst(a, sep, b);
  }

  /** A string without the separator is a single piece. */
  lemma {:induction false} SplitWhole(s: string, sep: char)
    requires sep !in s
    ensures Split(s, sep) == [s]
  {
  }

  /** Splitting undoes joining: parts free of the separator, joined with it,
      split back into exactly those parts. */
  lemma {:induction false} SplitJoin(parts: seq<string>, sep: char)
    requires |parts| > 0
    requires forall i :: 0 <= i < |parts| ==> sep !in parts[i]
    ensures Split(Join(parts, [sep]), sep) == parts
    decreases |parts|
  {
    if |parts| == 1 {
      SplitWhole(parts[0], sep);
    } else {
      SplitJoin(parts[1..], sep);
      SplitAtFirst(parts[0], sep, Join(parts[1..], [sep]));
      assert parts == [parts[0]] + parts[1..];
    }
  }

  /** Every octet lower-cased. */
  function LowerAll(s: string): (r: string)
    ensures |r| == |s|
  {
    seq(|s|, i requires 0 <= i < |s| => Lower(s[i]))
  }

  /** Folding case octet by octet is comparing the lower-cased strings. */
  lemma {:induction false} EqualFoldLower(a: string, b: string)
    ensures EqualFold(a, b) <==> LowerAll(a) == LowerAll(b)
  {
    if LowerAll(a) == LowerAll(b) {
      forall i | 0 <= i < |a| ensures Lower(a[i]) == Lower(b[i]) {
        assert LowerAll(a)[i] == LowerAll(b)[i];
      }
    }
  }

  /** The method check of the file handler: exactly the four-letter spellings of `post`. */
  lemma {:induction false} EqualFoldPost(verb: string)
    ensures EqualFold(verb, "POST") <==> LowerAll(verb) == "post"
  {
    EqualFoldLower(verb, "POST");
    assert LowerAll("POST") == "post";
  }
}
