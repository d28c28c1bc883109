/** The string and list utilities the form relies on: JavaScript's `trim`,
    `split` on a one-character separator, `join`, and `filter`.
    What counts as whitespace is left to a parameter `ws`, so nothing below
    depends on the exact Unicode whitespace table. */
module Text {

  /** Every character of `s` is whitespace: `s.trim()` is the empty string. */
  predicate Blank(ws: char -> bool, s: string)
  {
    forall i | 0 <= i < |s| :: ws(s[i])
  }

  /** `s` starts and ends with a non-whitespace character (or is empty). */
  predicate IsTrimmed(ws: char -> bool, s: string)
  {
    |s| == 0 || (!ws(s[0]) && !ws(s[|s| - 1]))
  }

  /** Drops leading whitespace. */
  function TrimStart(ws: char -> bool, s: string): (r: string)
    ensures |r| <= |s| && r == s[|s| - |r|..]
    ensures forall i | 0 <= i < |s| - |r| :: ws(s[i])
    ensures |r| > 0 ==> !ws(r[0])
    decreases |s|
  {
    if |s| > 0 && ws(s[0]) then TrimStart(ws, s[1..]) else s
  }

  /** Drops trailing whitespace. */
  function TrimEnd(ws: char -> bool, s: string): (r: string)
    ensures |r| <= |s| && r == s[..|r|]
    ensures forall i | |r| <= i < |s| :: ws(s[i])
    ensures |r| > 0 ==> !ws(r[|r| - 1])
    decreases |s|
  {
    if |s| > 0 && ws(s[|s| - 1]) then TrimEnd(ws, s[..|s| - 1]) else s
  }

  /** `s.trim()`: the text left once whitespace is removed from both ends. */
  function Trim(ws: char -> bool, s: string): (r: string)
    ensures |r| <= |s|
    ensures IsTrimmed(ws, r)
    ensures r == "" <==> Blank(ws, s)
  {
    var t := TrimStart(ws, s);
    var r := TrimEnd(ws, t);
    assert |r| > 0 ==> r[0] == t[0];
    r
  }

  /** Trimming leaves already-trimmed text alone. */
  lemma TrimmedIsFixed(ws: char -> bool, s: string)
    requires IsTrimmed(ws, s)
    ensures Trim(ws, s) == s
  {
    assert TrimStart(ws, s) == s;
  }

  /** Trimming twice is trimming once. */
  lemma TrimIdempotent(ws: char -> bool, s: string)
    ensures Trim(ws, Trim(ws, s)) == Trim(ws, s)
  {
    TrimmedIsFixed(ws, Trim(ws, s));
  }

  /** What `Trim` returns is a slice of `s` with only whitespace cut off
      before and after it. */
  lemma TrimIsSlice(ws: char -> bool, s: string) returns (a: nat, b: nat)
    ensures a <= b <= |s|
    ensures Trim(ws, s) == s[a..b]
    ensures Blank(ws, s[..a]) && Blank(ws, s[b..])
  {
    var t := TrimStart(ws, s);
    var r := TrimEnd(ws, t);
    a := |s| - |t|;
    b := a + |r|;
    assert s[a..b] == t[..|r|];
    forall i | 0 <= i < |s[b..]| ensures ws(s[b..][i]) {
      assert s[b..][i] == t[|r| + i];
    }
  }

  /** `s.split(sep)` for a one-character separator: the pieces between
      separators, so there is always at least one piece and
      `"".split(sep)` is `[""]`. */
  function Split(s: string, sep: char): (r: seq<string>)
    ensures |r| >= 1
    ensures forall i | 0 <= i < |r| :: sep !in r[i]
    decreases |s|
  {
    if |s| == 0 then [""]
    else
      var rest := Split(s[1..], sep);
      if s[0] == sep then [""] + rest
      else [[s[0]] + rest[0]] + rest[1..]
  }

  /** `parts.join(sep)`: an empty list joins to the empty string. */
  function Join(parts: seq<string>, sep: char): string
  {
    if |parts| == 0 then ""
    else if |parts| == 1 then parts[0]
    else parts[0] + [sep] + Join(parts[1..], sep)
  }

  /** No piece of `parts` contains the separator. */
  predicate Separable(parts: seq<string>, sep: char)
  {
    forall i | 0 <= i < |parts| :: sep !in parts[i]
  }

  /** Splitting text that starts with a separator-free prefix `a` glues `a`
      onto the first piece of the rest. */
  lemma {:induction false} SplitPrefix(a: string, t: string, sep: char)
    requires sep !in a
    ensures Split(a + t, sep) == [a + Split(t, sep)[0]] + Split(t, sep)[1..]
    decreases |a|
  {
    if |a| == 0 {
      assert a + t == t;
      assert a + Split(t, sep)[0] == Split(t, sep)[0];
    } else {
      assert (a + t)[0] == a[0];
      assert (a + t)[1..] == a[1..] + t;
      SplitPrefix(a[1..], t, sep);
      assert [a[0]] + (a[1..] + Split(t, sep)[0]) == a + Split(t, sep)[0];
    }
  }

  /** Splitting undoes joining, when no piece contains the separator. */
  lemma {:induction false} SplitJoin(parts: seq<string>, sep: char)
    requires |parts| >= 1
    requires Separable(parts, sep)
    ensures Split(Join(parts, sep), sep) == parts
    decreases |parts|
  {
    if |parts| == 1 {
      SplitPrefix(parts[0], "", sep);
      assert parts[0] + "" == parts[0];
    } else {
      var rest := Join(parts[1..], sep);
      SplitJoin(parts[1..], sep);
      SplitPrefix(parts[0], [sep] + rest, sep);
      assert ([sep] + rest)[1..] == rest;
      assert parts[0] + [sep] + rest == parts[0] + ([sep] + rest);
      assert parts[0] + "" == parts[0];
      assert [parts[0]] + parts[1..] == parts;
    }
  }

  /** Joining undoes splitting: no character is lost or added. */
  lemma {:induction false} JoinSplit(s: string, sep: char)
    ensures Join(Split(s, sep), sep) == s
    decreases |s|
  {
    if |s| > 0 {
      var rest := Split(s[1..], sep);
      JoinSplit(s[1..], sep);
      if s[0] == sep {
        assert Join([""] + rest, sep) == "" + [sep] + Join(rest, sep);
        assert s == [s[0]] + s[1..];
      } else {
        var first := [[s[0]] + rest[0]] + rest[1..];
        if |rest| == 1 {
          assert rest == [rest[0]];
          assert s == [s[0]] + s[1..];
        } else {
          assert first[1..] == rest[1..];
          assert Join(rest, sep) == rest[0] + [sep] + Join(rest[1..], sep);
          assert s == [s[0]] + s[1..];
        }
      }
    }
  }

  /** `xs.filter(p)`: the elements satisfying `p`, in their original order. */
  function Filter<T>(p: T -> bool, xs: seq<T>): (r: seq<T>)
    ensures |r| <= |xs|
    ensures forall i | 0 <= i < |r| :: p(r[i])
    decreases |xs|
  {
    if |xs| == 0 then []
    else (if p(xs[0]) then [xs[0]] else []) + Filter(p, xs[1..])
  }

  /** Filtering distributes over concatenation, which is what "relative order
      kept" means: nothing moves across a cut point. */
  lemma {:induction false} FilterAppend<T>(p: T -> bool, a: seq<T>, b: seq<T>)
    ensures Filter(p, a + b) == Filter(p, a) + Filter(p, b)
    decreases |a|
  {
    if |a| == 0 {
      assert a + b == b;
    } else {
      assert (a + b)[0] == a[0];
      assert (a + b)[1..] == a[1..] + b;
      FilterAppend(p, a[1..], b);
    }
  }

  /** Filtering keeps every occurrence of an element that passes and none of
      one that fails. */
  lemma {:induction false} FilterCount<T>(p: T -> bool, xs: seq<T>, x: T)
    ensures multiset(Filter(p, xs))[x] == if p(x) then multiset(xs)[x] else 0
    decreases |xs|
  {
    if |xs| > 0 {
      FilterCount(p, xs[1..], x);
      assert xs == [xs[0]] + xs[1..];
    }
  }

  /** An element that passes is kept. */
  lemma {:induction false} FilterKeeps<T>(p: T -> bool, xs: seq<T>, i: nat)
    requires i < |xs| && p(xs[i])
    ensures xs[i] in Filter(p, xs)
    decreases |xs|
  {
    if i > 0 {
      FilterKeeps(p, xs[1..], i - 1);
    }
  }

  /** A list all of whose elements pass is its own filter. */
  lemma {:induction false} FilterAll<T>(p: T -> bool, xs: seq<T>)
    requires forall i | 0 <= i < |xs| :: p(xs[i])
    ensures Filter(p, xs) == xs
    decreases |xs|
  {
    if |xs| > 0 {
      FilterAll(p, xs[1..]);
    }
  }

  /** `xs.filter(x => x.trim() !== '')`. */
  function DropBlank(ws: char -> bool, xs: seq<string>): (r: seq<string>)
    ensures forall i | 0 <= i < |r| :: !Blank(ws, r[i])
  {
    Filter(x => !Blank(ws, x), xs)
  }

  lemma DropBlankAppend(ws: char -> bool, a: seq<string>, b: seq<string>)
    ensures DropBlank(ws, a + b) == DropBlank(ws, a) + DropBlank(ws, b)
  {
    FilterAppend(x => !Blank(ws, x), a, b);
  }

  lemma DropBlankKeepsFilled(ws: char -> bool, xs: seq<string>)
    requires forall i | 0 <= i < |xs| :: !Blank(ws, xs[i])
    ensures DropBlank(ws, xs) == xs
  {
    FilterAll(x => !Blank(ws, x), xs);
  }

  /** `xs.map(x => x.trim())`. */
  function TrimAll(ws: char -> bool, xs: seq<string>): (r: seq<string>)
    ensures |r| == |xs|
    ensures forall i | 0 <= i < |xs| :: r[i] == Trim(ws, xs[i])
    decreases |xs|
  {
    if |xs| == 0 then [] else [Trim(ws, xs[0])] + TrimAll(ws, xs[1..])
  }

  /** Trimming leaves a list of already-trimmed strings alone. */
  lemma {:induction false} TrimAllFixed(ws: char -> bool, xs: seq<string>)
    requires forall i | 0 <= i < |xs| :: IsTrimmed(ws, xs[i])
    ensures TrimAll(ws, xs) == xs
    decreases |xs|
  {
    if |xs| > 0 {
      TrimmedIsFixed(ws, xs[0]);
      TrimAllFixed(ws, xs[1..]);
    }
  }

  /** `xs.filter(x => x !== '')`. */
  function DropEmpty(xs: seq<string>): (r: seq<string>)
    ensures forall i | 0 <= i < |r| :: r[i] != ""
  {
    Filter(x => x != "", xs)
  }

  /** Trimming and then dropping empty strings is the same as dropping blank
      strings and then trimming what is left. */
  lemma {:induction false} TrimThenDropEmpty(ws: char -> bool, xs: seq<string>)
    ensures DropEmpty(TrimAll(ws, xs)) == TrimAll(ws, DropBlank(ws, xs))
    decreases |xs|
  {
    if |xs| > 0 {
      TrimThenDropEmpty(ws, xs[1..]);
      assert TrimAll(ws, xs) == [Trim(ws, xs[0])] + TrimAll(ws, xs[1..]);
      FilterAppend(x => x != "", [Trim(ws, xs[0])], TrimAll(ws, xs[1..]));
      assert xs == [xs[0]] + xs[1..];
      DropBlankAppend(ws, [xs[0]], xs[1..]);
      TrimAllAppend(ws, DropBlank(ws, [xs[0]]), DropBlank(ws, xs[1..]));
    }
  }

  /** Trimming every string distributes over concatenation. */
  lemma TrimAllAppend(ws: char -> bool, a: seq<string>, b: seq<string>)
    ensures TrimAll(ws, a + b) == TrimAll(ws, a) + TrimAll(ws, b)
  {
  }

  /** With a newline counted as whitespace, text that is not blank has at
      least one line that is not blank. */
  lemma FilledTextHasFilledLine(ws: char -> bool, s: string)
    requires ws('\n')
    requires !Blank(ws, s)
    ensures DropBlank(ws, Split(s, '\n')) != []
  {
    var j := FilledLine(ws, s);
    FilterKeeps(x => !Blank(ws, x), Split(s, '\n'), j);
  }

  /** The position of a non-blank line of non-blank text. */
  lemma {:induction false} FilledLine(ws: char -> bool, s: string) returns (j: nat)
    requires ws('\n')
    requires !Blank(ws, s)
    ensures j < |Split(s, '\n')| && !Blank(ws, Split(s, '\n')[j])
    decreases |s|
  {
    var rest := Split(s[1..], '\n');
    if ws(s[0]) {
      var k := FilledLine(ws, s[1..]);
      if s[0] == '\n' {
        j := k + 1;
      } else if k == 0 {
        var first := [s[0]] + rest[0];
        var i :| 0 <= i < |rest[0]| && !ws(rest[0][i]);
        assert first[i + 1] == rest[0][i];
        j := 0;
      } else {
        j := k;
      }
    } else {
      var first := [s[0]] + rest[0];
      assert first[0] == s[0];
      j := 0;
    }
  }
}
