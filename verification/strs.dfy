/** String operations the modelled code borrows from Python: join, split, ASCII lower-casing,
  * decimal rendering and the regular-expression substitutions that collapse runs of characters. */
module Strs {

  /** `sep.join(parts)`. */
  function Join(sep: string, parts: seq<string>): string {
    if |parts| == 0 then ""
    else if |parts| == 1 then parts[0]
    else parts[0] + sep + Join(sep, parts[1..])
  }

  /** `s.split(ch)`: the pieces between occurrences of `ch`; never empty. */
  function Split(s: string, ch: char): (r: seq<string>)
    ensures |r| >= 1
    ensures forall i :: 0 <= i < |r| ==> ch !in r[i]
  {
    if |s| == 0 then [""]
    else
      var rest := Split(s[1..], ch);
      if s[0] == ch then [""] + rest else [[s[0]] + rest[0]] + rest[1..]
  }

  /** Joining the pieces of a split with the separator gives the string back. */
  lemma {:induction false} JoinSplit(s: string, ch: char)
    ensures Join([ch], Split(s, ch)) == s
    decreases |s|
  {
    if |s| > 0 {
      JoinSplit(s[1..], ch);
      var rest := Split(s[1..], ch);
      if s[0] == ch {
        assert Split(s, ch) == [""] + rest;
        assert ([""] + rest)[1..] == rest;
      } else {
        var r := Split(s, ch);
        assert r == [[s[0]] + rest[0]] + rest[1..];
        if |rest| > 1 {
          assert r[1..] == rest[1..];
          assert Join([ch], rest) == rest[0] + [ch] + Join([ch], rest[1..]);
        }
      }
    }
  }

  /** Splitting a join of separator-free pieces gives the pieces back. */
  lemma {:induction false} SplitJoin(parts: seq<string>, ch: char)
    requires |parts| >= 1
    requires forall i :: 0 <= i < |parts| ==> ch !in parts[i]
    ensures Split(Join([ch], parts), ch) == parts
    decreases |parts|
  {
    if |parts| == 1 {
      SplitNoSeparator(parts[0], ch);
    } else {
      SplitJoin(parts[1..], ch);
      SplitAround(parts[0], Join([ch], parts[1..]), ch);
      assert [parts[0]] + parts[1..] == parts;
    }
  }

  lemma {:induction false} SplitNoSeparator(s: string, ch: char)
    requires ch !in s
    ensures Split(s, ch) == [s]
    decreases |s|
  {
    if |s| > 0 {
      SplitNoSeparator(s[1..], ch);
      assert [s[0]] + s[1..] == s;
    }
  }

  /** Splitting `a + sep + b` with `sep` absent from `a` puts `a` first, then the pieces of `b`. */
  lemma {:induction false} SplitAround(a: string, b: string, ch: char)
    requires ch !in a
    ensures Split(a + [ch] + b, ch) == [a] + Split(b, ch)
    decreases |a|
  {
    if |a| == 0 {
      assert a + [ch] + b == [ch] + b;
      assert ([ch] + b)[1..] == b;
    } else {
      SplitAround(a[1..], b, ch);
      assert (a + [ch] + b)[1..] == a[1..] + [ch] + b;
      assert [a[0]] + a[1..] == a;
    }
  }

  /** `s.split(ch)[-1]`: what follows the last `ch`, or all of `s` when it has none. */
  function LastSegment(s: string, ch: char): (r: string)
    ensures ch !in r
    ensures |r| <= |s| && s[|s| - |r|..] == r
    ensures |r| < |s| ==> s[|s| - |r| - 1] == ch
  {
    var parts := Split(s, ch);
    LastPieceIsSuffix(s, ch);
    parts[|parts| - 1]
  }

  /** What follows the last separator is the last segment. */
  lemma LastSegmentAfter(pre: string, ch: char, post: string)
    requires ch !in post
    ensures LastSegment(pre + [ch] + post, ch) == post
  {
    var s := pre + [ch] + post;
    var r := LastSegment(s, ch);
    assert s[|s| - |post|..] == post;
    forall k | |s| - |r| <= k < |s| ensures s[k] != ch {
      assert s[k] == r[k - (|s| - |r|)];
    }
    assert s[|pre|] == ch;
    forall k | |pre| < k < |s| ensures s[k] != ch {
      assert s[k] == post[k - |pre| - 1];
    }
  }

  /** The last segment of a relative path is its file name. */
  lemma LastSegmentExample()
    ensures LastSegment("files/x.pdf", '/') == "x.pdf"
  {
    assert "files/x.pdf" == "files" + ['/'] + "x.pdf";
    LastSegmentAfter("files", '/', "x.pdf");
  }

  lemma {:induction false} LastPieceIsSuffix(s: string, ch: char)
    ensures var parts := Split(s, ch);
      var r := parts[|parts| - 1];
      |r| <= |s| && s[|s| - |r|..] == r && (|r| < |s| ==> s[|s| - |r| - 1] == ch) && (|parts| == 1 ==> r == s) && (|parts| > 1 ==> |r| < |s|)
    decreases |s|
  {
    if |s| > 0 {
      LastPieceIsSuffix(s[1..], ch);
      var rest := Split(s[1..], ch);
      var parts := Split(s, ch);
      var last := rest[|rest| - 1];
      if s[0] != ch {
        assert parts == [[s[0]] + rest[0]] + rest[1..];
        if |rest| == 1 {
          assert parts[|parts| - 1] == [s[0]] + s[1..] == s;
        } else {
          assert parts[|parts| - 1] == last;
          TailSuffix(s, last);
        }
      } else {
        assert parts == [""] + rest;
        assert parts[|parts| - 1] == last;
        TailSuffix(s, last);
      }
    }
  }

  /** A suffix of `s[1..]` is a suffix of `s`, with the same character before it. */
  lemma TailSuffix(s: string, r: string)
    requires |s| > 0 && |r| <= |s| - 1 && s[1..][|s| - 1 - |r|..] == r
    ensures s[|s| - |r|..] == r
    ensures |r| < |s| - 1 ==> s[|s| - |r| - 1] == s[1..][|s| - 1 - |r| - 1]
  {
    assert s[|s| - |r|..] == s[1..][|s| - 1 - |r|..];
  }

  function LowerChar(c: char): char {
    if 'A' <= c <= 'Z' then (c as int + 32) as char else c
  }

  /** `s.lower()` restricted to ASCII letters. */
  function Lower(s: string): (r: string)
    ensures |r| == |s|
    ensures forall i :: 0 <= i < |s| ==> r[i] == LowerChar(s[i])
  {
    if |s| == 0 then "" else [LowerChar(s[0])] + Lower(s[1..])
  }

  lemma LowerAppend(a: string, b: string)
    ensures Lower(a + b) == Lower(a) + Lower(b)
  {
    assert forall i :: 0 <= i < |a + b| ==> Lower(a + b)[i] == (Lower(a) + Lower(b))[i];
  }

  lemma LowerIdempotent(s: string)
    ensures Lower(Lower(s)) == Lower(s)
  {
  }

  function DigitChar(d: nat): char
    requires d < 10
  {
    ('0' as int + d) as char
  }

  /** `str(n)` for a natural number. */
  function NatToString(n: nat): (r: string)
    ensures |r| >= 1
    ensures forall i :: 0 <= i < |r| ==> '0' <= r[i] <= '9'
  {
    if n < 10 then [DigitChar(n)] else NatToString(n / 10) + [DigitChar(n % 10)]
  }

  /** `str(i)` for any integer. */
  function IntToString(i: int): string {
    if i < 0 then "-" + NatToString(-i) else NatToString(i)
  }

  predicate StartsWith(s: string, prefix: string) {
    |prefix| <= |s| && s[..|prefix|] == prefix
  }

  /** The character classes matched by the patterns the code substitutes. */
  datatype CharClass =
    | ControlWhitespace  // [\n\t\r]
    | Space              // the space character
    | SpaceOrSlash       // [ /]

  predicate InClass(c: char, k: CharClass) {
    match k
    case ControlWhitespace => c == '\n' || c == '\t' || c == '\r'
    case Space => c == ' '
    case SpaceOrSlash => c == ' ' || c == '/'
  }

  predicate NoneInClass(s: string, k: CharClass) {
    forall i :: 0 <= i < |s| ==> !InClass(s[i], k)
  }

  /** Replaces every maximal run of `k` characters by `rep`; `inRun` says the character just before
    * `s` belonged to a run that has already been replaced. */
  function CollapseFrom(s: string, k: CharClass, rep: char, inRun: bool): string {
    if |s| == 0 then ""
    else if InClass(s[0], k) then (if inRun then "" else [rep]) + CollapseFrom(s[1..], k, rep, true)
    else [s[0]] + CollapseFrom(s[1..], k, rep, false)
  }

  /** `re.sub(k + "+", rep, s)`. With `k` the space class this is also `re.sub(" {2,}", " ", s)`,
    * because replacing a lone space by a space changes nothing. */
  function Collapse(s: string, k: CharClass, rep: char): string {
    CollapseFrom(s, k, rep, false)
  }

  /** A replacement outside the class leaves no character of the class behind. */
  lemma {:induction false} CollapseRemovesClass(s: string, k: CharClass, rep: char, inRun: bool)
    requires !InClass(rep, k)
    ensures NoneInClass(CollapseFrom(s, k, rep, inRun), k)
    decreases |s|
  {
    if |s| > 0 {
      CollapseRemovesClass(s[1..], k, rep, InClass(s[0], k));
    }
  }

  /** A string without characters of the class is left unchanged. */
  lemma {:induction false} CollapseIdentity(s: string, k: CharClass, rep: char, inRun: bool)
    requires NoneInClass(s, k)
    ensures CollapseFrom(s, k, rep, inRun) == s
    decreases |s|
  {
    if |s| > 0 {
      CollapseIdentity(s[1..], k, rep, false);
      assert [s[0]] + s[1..] == s;
    }
  }

  lemma CollapseKeeps(s: string, k: CharClass, rep: char)
    ensures NoneInClass(s, k) ==> Collapse(s, k, rep) == s
  {
    if NoneInClass(s, k) {
      CollapseIdentity(s, k, rep, false);
    }
  }

  /** Collapsing only ever writes characters of the input or the replacement. */
  lemma {:induction false} CollapseChars(s: string, k: CharClass, rep: char, inRun: bool)
    ensures forall c :: c in CollapseFrom(s, k, rep, inRun) ==> c in s || c == rep
    decreases |s|
  {
    if |s| > 0 {
      CollapseChars(s[1..], k, rep, InClass(s[0], k));
    }
  }

  /** Whether a run is open after `a` has been read from state `inRun`. */
  function RunAfter(a: string, k: CharClass, inRun: bool): bool {
    if |a| == 0 then inRun else InClass(a[|a| - 1], k)
  }

  /** Collapsing a concatenation collapses the halves, the second resuming the run state the first left. */
  lemma {:induction false} CollapseAppend(a: string, x: string, k: CharClass, rep: char, inRun: bool)
    ensures CollapseFrom(a + x, k, rep, inRun) == CollapseFrom(a, k, rep, inRun) + CollapseFrom(x, k, rep, RunAfter(a, k, inRun))
    decreases |a|
  {
    if |a| == 0 {
      assert a + x == x;
    } else {
      assert (a + x)[0] == a[0];
      assert (a + x)[1..] == a[1..] + x;
      CollapseAppend(a[1..], x, k, rep, InClass(a[0], k));
    }
  }

  /** A non-empty run of class characters contributes one replacement, or none when a run was already open. */
  lemma {:induction false} CollapseClassRun(run: string, b: string, k: CharClass, rep: char, inRun: bool)
    requires |run| > 0 && AllInClass(run, k)
    ensures CollapseFrom(run + b, k, rep, inRun) == (if inRun then "" else [rep]) + CollapseFrom(b, k, rep, true)
    decreases |run|
  {
    assert (run + b)[0] == run[0];
    assert (run + b)[1..] == run[1..] + b;
    if |run| > 1 {
      CollapseClassRun(run[1..], b, k, rep, true);
    } else {
      assert run[1..] + b == b;
    }
  }

  /** Every character of `s` belongs to the class. */
  predicate AllInClass(s: string, k: CharClass) {
    forall i :: 0 <= i < |s| ==> InClass(s[i], k)
  }

  /** Each maximal run becomes exactly one replacement and the characters around it are kept: with
    * `CollapseIdentity` this fixes the collapsed string on every input. */
  lemma CollapseRun(a: string, run: string, b: string, k: CharClass, rep: char)
    requires |run| > 0 && AllInClass(run, k)
    requires |a| == 0 || !InClass(a[|a| - 1], k)
    requires |b| == 0 || !InClass(b[0], k)
    ensures Collapse(a + run + b, k, rep) == Collapse(a, k, rep) + [rep] + Collapse(b, k, rep)
  {
    assert a + run + b == a + (run + b);
    CollapseAppend(a, run + b, k, rep, false);
    CollapseClassRun(run, b, k, rep, false);
  }

  predicate NoDoubleSpace(s: string) {
    forall i :: 0 <= i < |s| - 1 ==> !(s[i] == ' ' && s[i + 1] == ' ')
  }

  /** Collapsing spaces leaves no two adjacent spaces; after a replaced run the output does not start with one. */
  lemma {:induction false} CollapseSpacesNoDouble(s: string, inRun: bool)
    ensures NoDoubleSpace(CollapseFrom(s, Space, ' ', inRun))
    ensures inRun ==> var r := CollapseFrom(s, Space, ' ', inRun); |r| == 0 || r[0] != ' '
    decreases |s|
  {
    if |s| > 0 {
      CollapseSpacesNoDouble(s[1..], s[0] == ' ');
      var tail := CollapseFrom(s[1..], Space, ' ', s[0] == ' ');
      var r := CollapseFrom(s, Space, ' ', inRun);
      if s[0] == ' ' && !inRun {
        assert r == [' '] + tail;
        assert forall i :: 1 <= i < |r| ==> r[i] == tail[i - 1];
      } else if s[0] != ' ' {
        assert r == [s[0]] + tail;
        assert forall i :: 1 <= i < |r| ==> r[i] == tail[i - 1];
      }
    }
  }

  /** Collapsing spaces keeps a string without two adjacent spaces as it is: a lone space stays. */
  lemma {:induction false} CollapseSpacesKeep(s: string, inRun: bool)
    requires NoDoubleSpace(s)
    requires inRun ==> |s| == 0 || s[0] != ' '
    ensures CollapseFrom(s, Space, ' ', inRun) == s
    decreases |s|
  {
    if |s| > 0 {
      assert NoDoubleSpace(s[1..]) by {
        forall i | 0 <= i < |s[1..]| - 1 ensures !(s[1..][i] == ' ' && s[1..][i + 1] == ' ') {
          assert s[1..][i] == s[i + 1] && s[1..][i + 1] == s[i + 2];
        }
      }
      CollapseSpacesKeep(s[1..], s[0] == ' ');
      assert [s[0]] + s[1..] == s;
    }
  }

  lemma SpacesKept(s: string)
    ensures NoDoubleSpace(s) ==> Collapse(s, Space, ' ') == s
  {
    if NoDoubleSpace(s) {
      CollapseSpacesKeep(s, false);
    }
  }
}
