/**
 * Whitespace trimming and delimiter splitting of strings.
 *
 * Whitespace is the set the "C" locale's `isspace` accepts: space, tab,
 * line feed, vertical tab, form feed and carriage return. The value-returning
 * `_copy` operations are the specification functions; the in-place
 * operations, which scan the string with `find_if`, are methods proved equal
 * to them.
 */
module StringUtils {

  predicate IsSpace(c: char) {
    c == ' ' || c == '\t' || c == '\n' || c == '\U{000B}' || c == '\U{000C}' || c == '\r'
  }

  predicate AllSpace(s: string) {
    forall i | 0 <= i < |s| :: IsSpace(s[i])
  }

  /** The first index from `i` on that does not hold whitespace, or the length. */
  function SkipSpace(s: string, i: nat): (k: nat)
    requires i <= |s|
    ensures i <= k <= |s|
    ensures forall j | i <= j < k :: IsSpace(s[j])
    ensures k < |s| ==> !IsSpace(s[k])
    decreases |s| - i
  {
    if i < |s| && IsSpace(s[i]) then SkipSpace(s, i + 1) else i
  }

  /** The end of the stretch before `j` that is not trailing whitespace. */
  function SkipSpaceBack(s: string, j: nat): (k: nat)
    requires j <= |s|
    ensures k <= j
    ensures forall i | k <= i < j :: IsSpace(s[i])
    ensures k > 0 ==> !IsSpace(s[k - 1])
    decreases j
  {
    if j > 0 && IsSpace(s[j - 1]) then SkipSpaceBack(s, j - 1) else j
  }

  /** `ltrim_copy`: drop the leading run of whitespace. */
  function LTrimCopy(s: string): (r: string)
    ensures |r| <= |s| && r == s[|s| - |r|..]
    ensures forall i | 0 <= i < |s| - |r| :: IsSpace(s[i])
    ensures r == [] || !IsSpace(r[0])
  {
    s[SkipSpace(s, 0)..]
  }

  /** `rtrim_copy`: drop the trailing run of whitespace. */
  function RTrimCopy(s: string): (r: string)
    ensures |r| <= |s| && r == s[..|r|]
    ensures forall i | |r| <= i < |s| :: IsSpace(s[i])
    ensures r == [] || !IsSpace(r[|r| - 1])
  {
    s[..SkipSpaceBack(s, |s|)]
  }

  /** `trim_copy`: trim on the left, then on the right. */
  function TrimCopy(s: string): (r: string)
    ensures r == [] || (!IsSpace(r[0]) && !IsSpace(r[|r| - 1]))
  {
    RTrimCopy(LTrimCopy(s))
  }

  /**
   * The trim is the stretch of `s` left between a whitespace prefix and a
   * whitespace suffix.
   */
  lemma TrimIsInfix(s: string) returns (i: nat)
    ensures i + |TrimCopy(s)| <= |s| && TrimCopy(s) == s[i..i + |TrimCopy(s)|]
    ensures AllSpace(s[..i]) && AllSpace(s[i + |TrimCopy(s)|..])
  {
    var l := LTrimCopy(s);
    var r := RTrimCopy(l);
    i := |s| - |l|;
    assert l == s[i..] && r == l[..|r|];
    assert r == s[i..i + |r|];
    var pre, post := s[..i], s[i + |r|..];
    forall j | 0 <= j < |pre|
      ensures IsSpace(pre[j])
    {
      assert pre[j] == s[j];
    }
    forall j | 0 <= j < |post|
      ensures IsSpace(post[j])
    {
      assert post[j] == l[|r| + j];
    }
  }

  /**
   * The left trim removes exactly the longest leading run of whitespace: any
   * whitespace prefix that stops at a non-space character (or the end) is
   * the part removed.
   */
  lemma LTrimExactly(s: string, k: nat)
    requires k <= |s| && AllSpace(s[..k]) && (k == |s| || !IsSpace(s[k]))
    ensures LTrimCopy(s) == s[k..]
  {
  }

  /**
   * The right trim removes exactly the longest trailing run of whitespace:
   * any whitespace suffix that starts after a non-space character (or at the
   * start) is the part removed.
   */
  lemma RTrimExactly(s: string, k: nat)
    requires k <= |s| && AllSpace(s[k..]) && (k == 0 || !IsSpace(s[k - 1]))
    ensures RTrimCopy(s) == s[..k]
  {
  }

  /** Neither end holds whitespace. */
  predicate IsTrimmed(s: string) {
    s == [] || (!IsSpace(s[0]) && !IsSpace(s[|s| - 1]))
  }

  /** A string already trimmed on both sides is its own trim. */
  lemma TrimOfTrimmed(s: string)
    requires IsTrimmed(s)
    ensures TrimCopy(s) == s
  {
    LTrimExactly(s, 0);
    assert s[0..] == s;
    RTrimExactly(s, |s|);
    assert s[..|s|] == s;
  }

  lemma TrimIdempotent(s: string)
    ensures TrimCopy(TrimCopy(s)) == TrimCopy(s)
  {
    TrimOfTrimmed(TrimCopy(s));
  }

  /** A string trims to empty exactly when it is all whitespace. */
  lemma TrimEmpty(s: string)
    ensures TrimCopy(s) == [] <==> AllSpace(s)
  {
    var l := LTrimCopy(s);
    if AllSpace(s) {
      LTrimExactly(s, |s|);
    }
  }

  /** Whitespace padding on either side of a trimmed string is removed and nothing else. */
  lemma TrimPadded(pre: string, t: string, post: string)
    requires AllSpace(pre) && AllSpace(post)
    requires t != [] && !IsSpace(t[0]) && !IsSpace(t[|t| - 1])
    ensures TrimCopy(pre + t + post) == t
  {
    var s := pre + t + post;
    assert s[..|pre|] == pre;
    assert s[|pre|..] == t + post;
    LTrimExactly(s, |pre|);
    var l := t + post;
    assert l[|t|..] == post;
    RTrimExactly(l, |t|);
    assert l[..|t|] == t;
  }

  /** `ltrim`: find the first non-space character and erase what precedes it. */
  method LTrim(str: string) returns (r: string)
    ensures r == LTrimCopy(str)
  {
    var i := 0;
    while i < |str| && IsSpace(str[i])
      invariant 0 <= i <= |str|
      invariant AllSpace(str[..i])
    {
      assert str[..i + 1] == str[..i] + [str[i]];
      i := i + 1;
    }
    r := str[i..];
    LTrimExactly(str, i);
  }

  /** `rtrim`: find the last non-space character from the back and erase what follows it. */
  method RTrim(str: string) returns (r: string)
    ensures r == RTrimCopy(str)
  {
    var j := |str|;
    while j > 0 && IsSpace(str[j - 1])
      invariant 0 <= j <= |str|
      invariant AllSpace(str[j..])
    {
      assert str[j - 1..] == [str[j - 1]] + str[j..];
      j := j - 1;
    }
    r := str[..j];
    RTrimExactly(str, j);
  }

  /** `trim` */
  method Trim(str: string) returns (r: string)
    ensures r == TrimCopy(str)
  {
    r := LTrim(str);
    r := RTrim(r);
  }

  /** `find_if` for the first delimiter: its index, or the length when there is none. */
  function FindDelim(s: string, delims: set<char>): (k: nat)
    ensures k <= |s|
    ensures k < |s| ==> s[k] in delims
    ensures forall i | 0 <= i < k :: s[i] !in delims
    decreases |s|
  {
    if s == [] || s[0] in delims then 0 else 1 + FindDelim(s[1..], delims)
  }

  lemma FindDelimExactly(s: string, delims: set<char>, k: nat)
    requires k <= |s| && (k < |s| ==> s[k] in delims)
    requires forall i | 0 <= i < k :: s[i] !in delims
    ensures FindDelim(s, delims) == k
  {
  }

  /** A piece `split` can emit: non-empty, trimmed, free of delimiters. */
  predicate IsPiece(p: string, delims: set<char>) {
    p != [] && !IsSpace(p[0]) && !IsSpace(p[|p| - 1]) && forall i | 0 <= i < |p| :: p[i] !in delims
  }

  /** What `split` emits for one run: its trim, unless that is empty. */
  function Emit(run: string): seq<string> {
    var line := TrimCopy(run);
    if line != [] then [line] else []
  }

  /** The run before the first delimiter. */
  function Run(s: string, delims: set<char>): string {
    s[..FindDelim(s, delims)]
  }

  /** What follows the first delimiter; nothing when there is none. */
  function After(s: string, delims: set<char>): (r: string)
    requires s != []
    ensures |r| < |s|
  {
    var k := FindDelim(s, delims);
    if k == |s| then [] else s[k + 1..]
  }

  /** The run one turn of the `split` loop cuts; none when the string starts with a delimiter. */
  function Head(s: string, delims: set<char>): seq<string> {
    if FindDelim(s, delims) != 0 then [Run(s, delims)] else []
  }

  /** The runs the `split` loop cuts, in order. */
  function Runs(s: string, delims: set<char>): seq<string>
    decreases |s|
  {
    if s == [] then [] else Head(s, delims) + Runs(After(s, delims), delims)
  }

  /** The trims of the runs, those that are empty dropped. */
  function Pieces(runs: seq<string>): seq<string> {
    if runs == [] then [] else Emit(runs[0]) + Pieces(runs[1..])
  }

  /**
   * `split_copy`: the trimmed, non-empty runs between delimiters, in order;
   * every string it returns is non-empty, trimmed and free of delimiters.
   */
  function SplitCopy(s: string, delims: set<char>): (r: seq<string>)
    ensures forall j | 0 <= j < |r| :: IsPiece(r[j], delims)
  {
    RunsAreRuns(s, delims);
    PiecesArePieces(Runs(s, delims), delims);
    Pieces(Runs(s, delims))
  }

  /** A run emits nothing exactly when it is all whitespace, and otherwise one piece. */
  lemma EmitPiece(run: string, delims: set<char>)
    requires forall i | 0 <= i < |run| :: run[i] !in delims
    ensures |Emit(run)| <= 1
    ensures Emit(run) == [] <==> AllSpace(run)
    ensures Emit(run) != [] ==> IsPiece(Emit(run)[0], delims)
  {
    TrimEmpty(run);
    var e := Emit(run);
    if e != [] {
      var i := TrimIsInfix(run);
      assert e[0] == run[i..i + |e[0]|];
    }
  }

  /** Every run is non-empty and free of delimiters. */
  lemma {:induction false} RunsAreRuns(s: string, delims: set<char>)
    ensures forall j | 0 <= j < |Runs(s, delims)| ::
      Runs(s, delims)[j] != [] && forall i | 0 <= i < |Runs(s, delims)[j]| :: Runs(s, delims)[j][i] !in delims
    decreases |s|
  {
    if s != [] {
      RunsAreRuns(After(s, delims), delims);
    }
  }

  lemma {:induction false} PiecesAppend(x: seq<string>, y: seq<string>)
    ensures Pieces(x + y) == Pieces(x) + Pieces(y)
    decreases |x|
  {
    if x != [] {
      assert (x + y)[1..] == x[1..] + y;
      PiecesAppend(x[1..], y);
    } else {
      assert x + y == y;
    }
  }

  /** Each piece of delimiter-free runs is non-empty, trimmed and free of delimiters. */
  lemma {:induction false} PiecesArePieces(runs: seq<string>, delims: set<char>)
    requires forall j | 0 <= j < |runs| :: forall i | 0 <= i < |runs[j]| :: runs[j][i] !in delims
    ensures forall j | 0 <= j < |Pieces(runs)| :: IsPiece(Pieces(runs)[j], delims)
    decreases |runs|
  {
    if runs != [] {
      EmitPiece(runs[0], delims);
      PiecesArePieces(runs[1..], delims);
      var head, tail := Emit(runs[0]), Pieces(runs[1..]);
      forall j | 0 <= j < |head + tail|
        ensures IsPiece((head + tail)[j], delims)
      {
        if j >= |head| {
          assert (head + tail)[j] == tail[j - |head|];
        }
      }
    }
  }

  /** One turn of the `split` loop: emit for the run before the first delimiter, then carry on after it. */
  lemma SplitStep(s: string, delims: set<char>)
    requires s != []
    ensures SplitCopy(s, delims)
      == (if FindDelim(s, delims) != 0 then Emit(Run(s, delims)) else []) + SplitCopy(After(s, delims), delims)
  {
    var head := Head(s, delims);
    PiecesAppend(head, Runs(After(s, delims), delims));
    if head != [] {
      assert head[1..] == [];
    }
  }

  /** A string with no delimiter splits into its trim, if that is not empty. */
  lemma SplitWithoutDelims(s: string, delims: set<char>)
    requires forall i | 0 <= i < |s| :: s[i] !in delims
    ensures SplitCopy(s, delims) == Emit(s)
  {
    if s != [] {
      FindDelimExactly(s, delims, |s|);
      assert Run(s, delims) == s;
      SplitStep(s, delims);
    } else {
      TrimEmpty(s);
    }
  }

  lemma DropAcross(x: string, n: nat, y: string)
    requires n <= |x|
    ensures (x + y)[n..] == x[n..] + y
  {
  }

  /** Text after a string that already holds a delimiter does not change its first run. */
  lemma FirstDelimWithin(a: string, t: string, delims: set<char>)
    requires FindDelim(a, delims) < |a|
    ensures Head(a + t, delims) == Head(a, delims)
    ensures After(a + t, delims) == After(a, delims) + t
  {
    var j := FindDelim(a, delims);
    FindDelimExactly(a + t, delims, j);
    DropAcross(a, j + 1, t);
    assert (a + t)[..j] == a[..j];
  }

  /** A delimiter after a delimiter-free string ends its only run. */
  lemma NoDelimWithin(a: string, d: char, b: string, delims: set<char>)
    requires d in delims && FindDelim(a, delims) == |a|
    ensures Head(a + [d] + b, delims) == Runs(a, delims)
    ensures After(a + [d] + b, delims) == b
  {
    var s := a + [d] + b;
    FindDelimExactly(s, delims, |a|);
    assert s[..|a|] == a;
    if a != [] {
      assert a[..|a|] == a;
      assert Runs(a, delims) == Head(a, delims) + Runs([], delims);
    }
  }

  /** Cutting at a delimiter: the runs of `a` come first, then those of `b`. */
  lemma {:induction false} RunsAtDelim(a: string, d: char, b: string, delims: set<char>)
    requires d in delims
    ensures Runs(a + [d] + b, delims) == Runs(a, delims) + Runs(b, delims)
    decreases |a|
  {
    if FindDelim(a, delims) == |a| {
      NoDelimWithin(a, d, b, delims);
    } else {
      RunsAtDelim(After(a, delims), d, b, delims);
      RunsAtLaterDelim(a, d, b, delims);
    }
  }

  /** When `a` has a delimiter of its own, its first run comes first and the rest follows from `After(a)`. */
  lemma RunsAtLaterDelim(a: string, d: char, b: string, delims: set<char>)
    requires d in delims && FindDelim(a, delims) < |a|
    requires Runs(After(a, delims) + [d] + b, delims) == Runs(After(a, delims), delims) + Runs(b, delims)
    ensures Runs(a + [d] + b, delims) == Runs(a, delims) + Runs(b, delims)
  {
    var t := [d] + b;
    var rest := After(a, delims);
    var h, ra, rb := Head(a, delims), Runs(rest, delims), Runs(b, delims);
    assert Runs(a, delims) == h + ra;
    FirstDelimWithin(a, t, delims);
    Regroup(a, [d], b);
    assert Runs(a + t, delims) == h + Runs(rest + t, delims);
    Regroup(rest, [d], b);
    Regroup(h, ra, rb);
  }

  /** Splitting distributes over a delimiter: the pieces of `a` come first, then those of `b`. */
  lemma SplitAtDelim(a: string, d: char, b: string, delims: set<char>)
    requires d in delims
    ensures SplitCopy(a + [d] + b, delims) == SplitCopy(a, delims) + SplitCopy(b, delims)
  {
    RunsAtDelim(a, d, b, delims);
    PiecesAppend(Runs(a, delims), Runs(b, delims));
  }

  /** A leading delimiter adds no run. */
  lemma RunsLeadingDelim(d: char, b: string, delims: set<char>)
    requires d in delims
    ensures Runs([d] + b, delims) == Runs(b, delims)
  {
    var s := [d] + b;
    FindDelimExactly(s, delims, 0);
    assert After(s, delims) == b;
  }

  /** Two delimiters in a row add no piece between them. */
  lemma ConsecutiveDelims(a: string, d: char, e: char, b: string, delims: set<char>)
    requires d in delims && e in delims
    ensures SplitCopy(a + [d, e] + b, delims) == SplitCopy(a, delims) + SplitCopy(b, delims)
  {
    var t := [e] + b;
    assert a + [d, e] + b == a + [d] + t;
    RunsAtDelim(a, d, t, delims);
    RunsLeadingDelim(e, b, delims);
    PiecesAppend(Runs(a, delims), Runs(b, delims));
  }

  /** A non-empty string without delimiters is a single run. */
  lemma RunsWithoutDelims(s: string, delims: set<char>)
    requires s != [] && forall i | 0 <= i < |s| :: s[i] !in delims
    ensures Runs(s, delims) == [s]
  {
    FindDelimExactly(s, delims, |s|);
    assert Run(s, delims) == s;
    assert Runs(s, delims) == [s] + Runs([], delims);
  }

  /** Runs that are already trimmed and non-empty are their own pieces. */
  lemma {:induction false} PiecesOfTrimmed(runs: seq<string>)
    requires forall j | 0 <= j < |runs| :: runs[j] != [] && IsTrimmed(runs[j])
    ensures Pieces(runs) == runs
    decreases |runs|
  {
    if runs != [] {
      TrimOfTrimmed(runs[0]);
      PiecesOfTrimmed(runs[1..]);
      assert runs == [runs[0]] + runs[1..];
    }
  }

  /** Three delimiter-free words joined by two delimiters are three runs. */
  lemma RunsOfThree(a: string, d: char, b: string, e: char, c: string, delims: set<char>)
    requires d in delims && e in delims
    requires a != [] && forall i | 0 <= i < |a| :: a[i] !in delims
    requires b != [] && forall i | 0 <= i < |b| :: b[i] !in delims
    requires c != [] && forall i | 0 <= i < |c| :: c[i] !in delims
    ensures Runs(a + [d] + (b + [e] + c), delims) == [a, b, c]
  {
    RunsWithoutDelims(a, delims);
    RunsWithoutDelims(b, delims);
    RunsWithoutDelims(c, delims);
    RunsAtDelim(b, e, c, delims);
    RunsAtDelim(a, d, b + [e] + c, delims);
  }

  /** Three runs that are already trimmed and non-empty are their own pieces. */
  lemma PiecesOfThree(a: string, b: string, c: string)
    requires a != [] && IsTrimmed(a) && b != [] && IsTrimmed(b) && c != [] && IsTrimmed(c)
    ensures Pieces([a, b, c]) == [a, b, c]
  {
    var runs := [a, b, c];
    forall j | 0 <= j < |runs|
      ensures runs[j] != [] && IsTrimmed(runs[j])
    {
      if j == 0 {
        assert runs[j] == a;
      } else if j == 1 {
        assert runs[j] == b;
      } else {
        assert runs[j] == c;
      }
    }
    PiecesOfTrimmed(runs);
  }

  /** The case the library's own tests check: `"a b\nc"` split at blanks and newlines. */
  lemma SplitExample()
    ensures SplitCopy("a b\nc", {' ', '\n'}) == ["a", "b", "c"]
  {
    var a, b, c := ['a'], ['b'], ['c'];
    var s := a + [' '] + (b + ['\n'] + c);
    RunsOfThree(a, ' ', b, '\n', c, {' ', '\n'});
    PiecesOfThree(a, b, c);
    assert SplitCopy(s, {' ', '\n'}) == [a, b, c];
    assert s == "a b\nc";
    assert [a, b, c] == ["a", "b", "c"];
  }

  lemma Regroup<T>(a: seq<T>, b: seq<T>, c: seq<T>)
    ensures a + (b + c) == (a + b) + c
  {
  }

  /** One turn of the `split` loop, in terms of positions in the whole string. */
  lemma SplitLoopStep(str: string, delims: set<char>, start: nat, pos: nat, next: nat)
    requires start < |str| && start <= pos <= |str|
    requires forall i | start <= i < pos :: str[i] !in delims
    requires pos < |str| ==> str[pos] in delims
    requires next == if pos == |str| then pos else pos + 1
    ensures SplitCopy(str[start..], delims)
      == (if pos != start then Emit(str[start..pos]) else []) + SplitCopy(str[next..], delims)
  {
    var s := str[start..];
    FindDelimExactly(s, delims, pos - start);
    assert Run(s, delims) == str[start..pos];
    assert After(s, delims) == str[next..];
    SplitStep(s, delims);
  }

  /** `find_if` from `from`: the first delimiter at or after it, or the end. */
  method FindFrom(str: string, delims: set<char>, from: nat) returns (pos: nat)
    requires from <= |str|
    ensures from <= pos <= |str|
    ensures forall i | from <= i < pos :: str[i] !in delims
    ensures pos < |str| ==> str[pos] in delims
    ensures pos == from + FindDelim(str[from..], delims)
  {
    pos := from;
    while pos != |str| && str[pos] !in delims
      invariant from <= pos <= |str|
      invariant forall i | from <= i < pos :: str[i] !in delims
    {
      pos := pos + 1;
    }
    FindDelimExactly(str[from..], delims, pos - from);
  }

  /**
   * `split`: walk the string, cutting it at each delimiter, and append every
   * trimmed non-empty run to `lines`, whose earlier entries stay in place.
   */
  method Split(str: string, delims: set<char>, lines: seq<string>) returns (out: seq<string>)
    ensures out == lines + SplitCopy(str, delims)
  {
    out := lines;
    var iter := 0;
    while iter != |str|
      invariant 0 <= iter <= |str|
      invariant out + SplitCopy(str[iter..], delims) == lines + SplitCopy(str, delims)
      decreases |str| - iter
    {
      var pos := FindFrom(str, delims, iter);
      ghost var start, before := iter, out;
      ghost var emitted: seq<string> := [];
      if pos != iter {
        var line := Trim(str[iter..pos]);
        emitted := Emit(str[iter..pos]);
        if line != [] {
          out := out + [line];
        }
      }
      iter := if pos == |str| then pos else pos + 1;
      SplitLoopStep(str, delims, start, pos, iter);
      ghost var tail := SplitCopy(str[iter..], delims);
      assert out == before + emitted;
      Regroup(before, emitted, tail);
    }
  }
}
