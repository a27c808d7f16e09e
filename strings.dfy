/** The few Python string operations the handler relies on: `str.split` with a
    one-character separator, `[-1]` on its result, and the substring test
    `pattern in text`. `Join` (`sep.join`) is not used by the handler; it is here
    to state the round trip of `split`. Strings are sequences of characters. */
module Strings {

  /** `s.split(sep)`: the fields between consecutive separators, in order. There is
      always at least one field: "" splits into [""], and a separator at either end
      yields an empty first or last field. */
  function Split(s: string, sep: char): (fields: seq<string>)
    ensures |fields| >= 1
    ensures forall i :: 0 <= i < |fields| ==> sep !in fields[i]
    decreases |s|
  {
    if s == [] then [[]]
    else
      var init := Split(s[..|s| - 1], sep);
      if s[|s| - 1] == sep then init + [[]]
      else init[..|init| - 1] + [init[|init| - 1] + [s[|s| - 1]]]
  }

  /** `sep.join(fields)`. */
  function Join(fields: seq<string>, sep: char): string
    requires |fields| >= 1
  {
    if |fields| == 1 then fields[0]
    else Join(fields[..|fields| - 1], sep) + [sep] + fields[|fields| - 1]
  }

  /** `s.split(sep)[-1]`: the last field. */
  function LastField(s: string, sep: char): string
  {
    var fields := Split(s, sep);
    fields[|fields| - 1]
  }

  /** Joining the fields of a split gives back the string. */
  lemma {:induction false} SplitThenJoin(s: string, sep: char)
    ensures Join(Split(s, sep), sep) == s
    decreases |s|
  {
    if s != [] {
      var p, c := s[..|s| - 1], s[|s| - 1];
      assert s == p + [c];
      SplitThenJoin(p, sep);
      var init := Split(p, sep);
      var fields := Split(s, sep);
      if c == sep {
        assert fields == init + [[]];
        assert fields[..|fields| - 1] == init;
      } else {
        assert fields == init[..|init| - 1] + [init[|init| - 1] + [c]];
        if |init| > 1 {
          assert fields[..|fields| - 1] == init[..|init| - 1];
          assert Join(init, sep) == Join(init[..|init| - 1], sep) + [sep] + init[|init| - 1];
        }
      }
    }
  }

  /** Splitting `s + [c]`: a separator opens a new empty field, any other character
      extends the last one. */
  lemma SplitSnoc(s: string, c: char, sep: char)
    ensures var fs := Split(s, sep);
      Split(s + [c], sep) == if c == sep then fs + [[]] else fs[..|fs| - 1] + [fs[|fs| - 1] + [c]]
  {
    assert (s + [c])[..|s + [c]| - 1] == s;
  }

  /** One step of `SplitExtend`: a non-separator character lengthens the last field. */
  lemma SplitExtendStep(z: string, c: char, sep: char, head: seq<string>, last: string)
    requires c != sep
    requires Split(z, sep) == head + [last]
    ensures Split(z + [c], sep) == head + [last + [c]]
  {
    SplitSnoc(z, c, sep);
    var init := Split(z, sep);
    assert init[..|init| - 1] == head;
  }

  /** Appending text free of the separator only lengthens the last field. */
  lemma {:induction false} SplitExtend(x: string, y: string, sep: char)
    requires sep !in y
    ensures var fx := Split(x, sep);
      Split(x + y, sep) == fx[..|fx| - 1] + [fx[|fx| - 1] + y]
    decreases |y|
  {
    var fx := Split(x, sep);
    var head, last := fx[..|fx| - 1], fx[|fx| - 1];
    if y == [] {
      assert x + y == x;
      assert last + y == last;
      assert head + [last] == fx;
    } else {
      var y', c := y[..|y| - 1], y[|y| - 1];
      assert y == y' + [c];
      assert sep !in y' && c != sep;
      SplitExtend(x, y', sep);
      assert x + y == (x + y') + [c];
      SplitExtendStep(x + y', c, sep, head, last + y');
      assert last + y' + [c] == last + y;
    }
  }

  /** A separator followed by separator-free text adds that text as one more field. */
  lemma SplitAfterSeparator(x: string, t: string, sep: char)
    requires sep !in t
    ensures Split(x + [sep] + t, sep) == Split(x, sep) + [t]
  {
    SplitSnoc(x, sep, sep);
    SplitExtend(x + [sep], t, sep);
    var fs := Split(x + [sep], sep);
    assert fs[..|fs| - 1] == Split(x, sep);
    assert fs[|fs| - 1] + t == t;
  }

  /** Splitting the join of separator-free fields gives back the fields. */
  lemma {:induction false} JoinThenSplit(fields: seq<string>, sep: char)
    requires |fields| >= 1
    requires forall i :: 0 <= i < |fields| ==> sep !in fields[i]
    ensures Split(Join(fields, sep), sep) == fields
    decreases |fields|
  {
    var last := fields[|fields| - 1];
    assert sep !in last;
    if |fields| == 1 {
      SplitExtend([], last, sep);
      assert [] + last == last;
    } else {
      var init := fields[..|fields| - 1];
      assert forall i :: 0 <= i < |init| ==> init[i] == fields[i];
      JoinThenSplit(init, sep);
      SplitAfterSeparator(Join(init, sep), last, sep);
      assert fields == init + [last];
    }
  }

  /** The last field of `s + [c]` is empty when `c` is the separator, and otherwise
      the last field of `s` followed by `c`. */
  lemma LastFieldSnoc(s: string, c: char, sep: char)
    ensures LastField(s + [c], sep) == if c == sep then [] else LastField(s, sep) + [c]
  {
    assert (s + [c])[..|s + [c]| - 1] == s;
  }

  /** The last field is empty exactly when `s` is empty or ends in the separator. */
  lemma LastFieldEmpty(s: string, sep: char)
    ensures |LastField(s, sep)| > 0 <==> |s| > 0 && s[|s| - 1] != sep
  {
    if s != [] {
      var p, c := s[..|s| - 1], s[|s| - 1];
      assert s == p + [c];
      LastFieldSnoc(p, c, sep);
    }
  }

  /** The last field is the text after the last separator, or all of `s` when `s`
      holds no separator. */
  lemma {:induction false} LastFieldIsTail(s: string, sep: char)
    ensures var f := LastField(s, sep);
      && sep !in f
      && |f| <= |s| && f == s[|s| - |f|..]
      && (|f| < |s| ==> s[|s| - |f| - 1] == sep)
      && (sep !in s ==> f == s)
    decreases |s|
  {
    if s != [] {
      var p, c := s[..|s| - 1], s[|s| - 1];
      assert s == p + [c];
      LastFieldSnoc(p, c, sep);
      LastFieldIsTail(p, sep);
      if sep !in s {
        assert sep !in p;
      }
    }
  }

  /** Whatever precedes the last separator, the text after it is the last field. */
  lemma LastFieldAfter(x: string, t: string, sep: char)
    requires sep !in t
    ensures LastField(x + [sep] + t, sep) == t
  {
    LastFieldSnoc(x, sep, sep);
    SplitExtend(x + [sep], t, sep);
  }

  /** `pattern` occurs in `text` starting at index `k`. */
  predicate OccursAt(text: string, pattern: string, k: nat)
  {
    k + |pattern| <= |text| && text[k..k + |pattern|] == pattern
  }

  /** `pattern in text`: true exactly when `pattern` occurs somewhere in `text`. */
  function Contains(text: string, pattern: string): (found: bool)
    ensures found <==> exists k: nat :: OccursAt(text, pattern, k)
    decreases |text|
  {
    if |pattern| <= |text| && text[..|pattern|] == pattern then
      assert OccursAt(text, pattern, 0);
      true
    else if text == [] then
      assert forall k: nat :: !OccursAt(text, pattern, k);
      false
    else
      OccursInTail(text, pattern);
      Contains(text[1..], pattern)
  }

  /** Away from the first position, occurrences in `text` are those in its tail,
      shifted by one. */
  lemma OccursInTail(text: string, pattern: string)
    requires text != [] && !OccursAt(text, pattern, 0)
    ensures (exists k: nat :: OccursAt(text, pattern, k))
        <==> (exists k: nat :: OccursAt(text[1..], pattern, k))
  {
    forall k: nat | OccursAt(text[1..], pattern, k)
      ensures OccursAt(text, pattern, k + 1)
    {
      assert text[k + 1..k + 1 + |pattern|] == text[1..][k..k + |pattern|];
    }
    forall k: nat | OccursAt(text, pattern, k)
      ensures k >= 1 && OccursAt(text[1..], pattern, k - 1)
    {
      assert text[k..k + |pattern|] == text[1..][k - 1..k - 1 + |pattern|];
    }
  }

  /** The position of the first `c` in `s`. */
  function IndexOf(s: string, c: char): (i: nat)
    requires c in s
    ensures i < |s| && s[i] == c && c !in s[..i]
  {
    if s[0] == c then 0 else 1 + IndexOf(s[1..], c)
  }

  /** Any position holding `c` with no `c` before it is the first one. */
  lemma IndexOfUnique(s: string, c: char, i: nat)
    requires i < |s| && s[i] == c && c !in s[..i]
    ensures IndexOf(s, c) == i
  {
  }
}
