/** Model of `surround_with_ifndef` from the build script: every `#define NAME`
    line that is not already preceded by `#ifndef NAME` gets wrapped in an
    `#ifndef NAME` / `#endif` pair, so that a definition given on the compiler's
    command line takes precedence. The file is modelled as the list of its
    lines as `readlines` returns them: each line keeps its trailing newline,
    except the last line when the file does not end with one. The model treats every
    line as a whole element and does not show how the joined text reads when
    an inserted `#endif` follows such a last line. */
module IfndefGuard {

  /** The characters Python's `\s` matches in a `str` pattern (those for which
      `str.isspace` holds). */
  predicate IsSpace(c: char) {
    c == ' ' || ('\U{0009}' <= c <= '\U{000D}') || ('\U{001C}' <= c <= '\U{001F}')
    || c == '\U{0085}' || c == '\U{00A0}' || c == '\U{1680}'
    || ('\U{2000}' <= c <= '\U{200A}') || c == '\U{2028}' || c == '\U{2029}'
    || c == '\U{202F}' || c == '\U{205F}' || c == '\U{3000}'
  }

  predicate StartsWith(s: string, prefix: string) {
    |prefix| <= |s| && s[..|prefix|] == prefix
  }

  /** `s` matches `\s+NAME` at its start: one or more whitespace characters
      and then `name`, trying every split the way the regex engine backtracks. */
  predicate SpacesThen(s: string, name: string)
    decreases |s|
  {
    |s| > 0 && IsSpace(s[0]) && (StartsWith(s[1..], name) || SpacesThen(s[1..], name))
  }

  /** `re.match(r'\s*' + keyword + r'\s+' + name, line)` succeeds, for a name
      without regular-expression metacharacters. */
  predicate Directive(line: string, keyword: string, name: string)
    decreases |line|
  {
    (StartsWith(line, keyword) && SpacesThen(line[|keyword|..], name))
    || (|line| > 0 && IsSpace(line[0]) && Directive(line[1..], keyword, name))
  }

  predicate IsDefine(line: string, name: string) {
    Directive(line, "#define", name)
  }

  predicate IsIfndef(line: string, name: string) {
    Directive(line, "#ifndef", name)
  }

  /** The index Python reads as `lines[i-1]`: for `i == 0` the negative index
      wraps around to the last line. */
  function Prev(n: nat, i: nat): (p: nat)
    requires i < n
    ensures p < n
  {
    if i == 0 then n - 1 else i - 1
  }

  /** Line `i` is collected into `indexes`: it defines `name` and the line
      before it does not already guard it. */
  predicate Selected(lines: seq<string>, name: string, i: nat)
    requires i < |lines|
  {
    IsDefine(lines[i], name) && !IsIfndef(lines[Prev(|lines|, i)], name)
  }

  /** The selection as one flag per line. */
  function Marks(lines: seq<string>, name: string): (m: seq<bool>)
    ensures |m| == |lines|
    ensures forall i :: 0 <= i < |lines| ==> m[i] == Selected(lines, name, i)
  {
    seq(|lines|, i requires 0 <= i < |lines| => Selected(lines, name, i))
  }

  /** The indexes below `k` whose flag is set, in increasing order. */
  function Marked(marks: seq<bool>, k: nat): (r: seq<nat>)
    requires k <= |marks|
    ensures forall j :: 0 <= j < |r| ==> r[j] < k && marks[r[j]]
    ensures forall p :: 0 <= p < k && marks[p] ==> p in r
    ensures forall a, b :: 0 <= a < b < |r| ==> r[a] < r[b]
  {
    if k == 0 then []
    else Marked(marks, k - 1) + (if marks[k - 1] then [k - 1] else [])
  }

  function IfndefLine(name: string): string {
    "#ifndef " + name + "\n"
  }

  const EndifLine: string := "#endif\n"

  /** A list of lines together with the lines to wrap and the two lines to
      wrap them with. */
  datatype Edit<T> = Edit(lines: seq<T>, marks: seq<bool>, open: T, close: T) {
    predicate Valid() {
      |marks| == |lines|
    }
  }

  /** What line `i` becomes in the output. */
  function Piece<T>(e: Edit<T>, i: nat): seq<T>
    requires e.Valid() && i < |e.lines|
  {
    if e.marks[i] then [e.open, e.lines[i], e.close] else [e.lines[i]]
  }

  /** The output for the first `k` lines. */
  function Wrapped<T>(e: Edit<T>, k: nat): seq<T>
    requires e.Valid() && k <= |e.lines|
  {
    if k == 0 then [] else Wrapped(e, k - 1) + Piece(e, k - 1)
  }

  /** The position in the output of original line `k`. */
  function Pos<T>(e: Edit<T>, k: nat): nat
    requires e.Valid() && k < |e.lines|
  {
    |Wrapped(e, k)| + if e.marks[k] then 1 else 0
  }

  /** The edit `surround_with_ifndef` makes to a file. */
  function Plan(lines: seq<string>, name: string): (e: Edit<string>)
    ensures e.Valid()
  {
    Edit(lines, Marks(lines, name), IfndefLine(name), EndifLine)
  }

  /** The specification of the rewrite: each selected line wrapped in an
      `#ifndef NAME` / `#endif` pair, every other line kept. */
  function Surround(lines: seq<string>, name: string): seq<string> {
    Wrapped(Plan(lines, name), |lines|)
  }

  function SelectedCount(lines: seq<string>, name: string): nat {
    |Marked(Marks(lines, name), |lines|)|
  }

  /** Python's `list.insert(k, x)` for an index within the list. */
  function Insert<T>(s: seq<T>, k: nat, x: T): (r: seq<T>)
    requires k <= |s|
    ensures |r| == |s| + 1 && r[k] == x
  {
    s[..k] + [x] + s[k..]
  }

  // ---------------------------------------------------------------------
  // The transformation as the build script performs it.

  /** `surround_with_ifndef` on the lines of a file: collect the indexes,
      then insert the guards in reverse index order. `rewritten` says whether
      the file is written back. */
  method SurroundWithIfndef(lines: seq<string>, name: string) returns (result: seq<string>, rewritten: bool)
    ensures rewritten <==> SelectedCount(lines, name) > 0
    ensures result == Surround(lines, name)
    ensures !rewritten ==> result == lines
  {
    var indexes := CollectIndexes(lines, name);
    if indexes == [] {
      NoSelectionUnchanged(lines, name);
      return lines, false;
    }
    result := InsertInReverse(lines, indexes, IfndefLine(name), EndifLine, Plan(lines, name));
    rewritten := true;
  }

  /** The first loop of `surround_with_ifndef`: the indexes of the selected
      lines, in increasing order. */
  method CollectIndexes(lines: seq<string>, name: string) returns (indexes: seq<nat>)
    ensures indexes == Marked(Marks(lines, name), |lines|)
    ensures forall i: nat :: i in indexes <==> i < |lines| && Selected(lines, name, i)
    ensures forall a, b :: 0 <= a < b < |indexes| ==> indexes[a] < indexes[b]
  {
    ghost var marks := Marks(lines, name);
    indexes := [];
    var i := 0;
    while i < |lines|
      invariant i <= |lines|
      invariant indexes == Marked(marks, i)
    {
      var selected := IsDefine(lines[i], name) && !IsIfndef(lines[Prev(|lines|, i)], name);
      assert selected == marks[i];
      if selected {
        indexes := indexes + [i];
      }
      i := i + 1;
    }
  }

  /** The second loop of `surround_with_ifndef`: walking the indexes from the
      last to the first, insert `close` after and `open` before each marked
      line. Because the later lines are edited first, each index still names
      the original line when its turn comes. */
  method InsertInReverse<T>(lines: seq<T>, indexes: seq<nat>, open: T, close: T, ghost e: Edit<T>)
    returns (result: seq<T>)
    requires e.Valid() && e.lines == lines && e.open == open && e.close == close
    requires indexes == Marked(e.marks, |lines|)
    ensures result == Wrapped(e, |lines|)
  {
    result := lines;
    var j := |indexes|;
    ghost var t := |lines|;
    ghost var suffix: seq<T> := [];
    while j > 0
      invariant 0 <= j <= |indexes| && t == Bound(e, indexes, j) <= |lines|
      invariant Wrapped(e, |lines|) == Wrapped(e, t) + suffix
      invariant result == lines[..t] + suffix
    {
      var idx := indexes[j - 1];
      suffix := ReverseStep(e, indexes, j, suffix, result);
      result := Insert(result, idx + 1, close);
      result := Insert(result, idx, open);
      t := idx;
      j := j - 1;
    }
    Finish(e, indexes, suffix, result);
  }

  /** Where the already rewritten part of the lines begins while `j` indexes
      remain to be processed. */
  function Bound<T>(e: Edit<T>, indexes: seq<nat>, j: nat): nat
    requires j <= |indexes|
  {
    if j == |indexes| then |e.lines| else indexes[j]
  }

  /** One turn of the reverse loop: with the lines from `t` on rewritten
      (giving `suffix`) and those before it original, the two insertions at
      the next index move the boundary down to that index. */
  lemma ReverseStep<T>(e: Edit<T>, indexes: seq<nat>, j: nat, suffix: seq<T>, current: seq<T>)
    returns (suffix': seq<T>)
    requires e.Valid() && indexes == Marked(e.marks, |e.lines|) && 0 < j <= |indexes|
    requires Bound(e, indexes, j) <= |e.lines|
    requires Wrapped(e, |e.lines|) == Wrapped(e, Bound(e, indexes, j)) + suffix
    requires current == e.lines[..Bound(e, indexes, j)] + suffix
    ensures indexes[j - 1] == Bound(e, indexes, j - 1) < |current|
    ensures Wrapped(e, |e.lines|) == Wrapped(e, indexes[j - 1]) + suffix'
    ensures Insert(Insert(current, indexes[j - 1] + 1, e.close), indexes[j - 1], e.open)
            == e.lines[..indexes[j - 1]] + suffix'
  {
    var idx, t := indexes[j - 1], Bound(e, indexes, j);
    GapUnmarked(e.marks, indexes, j);
    InsertGuards(e, idx, t, suffix, current);
    WrappedSplit(e, idx, t, suffix);
    suffix' := Piece(e, idx) + (e.lines[idx + 1..t] + suffix);
  }

  /** When no index remains the whole list is rewritten. */
  lemma Finish<T>(e: Edit<T>, indexes: seq<nat>, suffix: seq<T>, current: seq<T>)
    requires e.Valid() && indexes == Marked(e.marks, |e.lines|)
    requires Bound(e, indexes, 0) <= |e.lines|
    requires Wrapped(e, |e.lines|) == Wrapped(e, Bound(e, indexes, 0)) + suffix
    requires current == e.lines[..Bound(e, indexes, 0)] + suffix
    ensures current == Wrapped(e, |e.lines|)
  {
    var t := Bound(e, indexes, 0);
    GapUnmarked(e.marks, indexes, 0);
    UnselectedRun(e, 0, t);
    assert e.lines[0..t] == e.lines[..t];
  }

  /** Without a set flag there is no marked index. */
  lemma {:induction false} NoneMarked(marks: seq<bool>, k: nat)
    requires k <= |marks| && forall p :: 0 <= p < k ==> !marks[p]
    ensures Marked(marks, k) == []
  {
    if k > 0 {
      NoneMarked(marks, k - 1);
    }
  }

  /** Between two consecutive marked indexes (or before the first, or after
      the last) no line is marked. */
  lemma GapUnmarked(marks: seq<bool>, r: seq<nat>, j: nat)
    requires r == Marked(marks, |marks|) && j <= |r|
    ensures j > 0 ==> r[j - 1] < (if j == |r| then |marks| else r[j]) && marks[r[j - 1]]
    ensures forall p :: (if j == 0 then 0 else r[j - 1] + 1) <= p < (if j == |r| then |marks| else r[j]) ==> !marks[p]
  {
    forall p | (if j == 0 then 0 else r[j - 1] + 1) <= p < (if j == |r| then |marks| else r[j])
      ensures !marks[p]
    {
      NotBetween(r, j, p);
    }
  }

  /** A value strictly between two neighbours of an increasing sequence is
      not in it. */
  lemma NotBetween(r: seq<nat>, j: nat, p: nat)
    requires j <= |r| && forall a, b :: 0 <= a < b < |r| ==> r[a] < r[b]
    requires j > 0 ==> r[j - 1] < p
    requires j < |r| ==> p < r[j]
    ensures p !in r
  {
    forall q | 0 <= q < |r|
      ensures r[q] != p
    {
      if q < j {
        assert r[q] <= r[j - 1];
      } else {
        assert r[j] <= r[q];
      }
    }
  }

  /** Inserting `after` behind position `k` and then `before` in front of it
      wraps element `k`. */
  lemma InsertAround<T>(s: seq<T>, k: nat, before: T, after: T)
    requires k < |s|
    ensures Insert(Insert(s, k + 1, after), k, before) == s[..k] + ([before, s[k], after] + s[k + 1..])
  {
    var a := Insert(s, k + 1, after);
    assert a[..k] == s[..k];
    assert a[k..] == [s[k], after] + s[k + 1..];
  }

  /** One step of the reverse loop: the two insertions at a marked index
      `idx`, above which everything is already rewritten, turn the line into
      its piece. */
  lemma InsertGuards<T>(e: Edit<T>, idx: nat, t: nat, suffix: seq<T>, current: seq<T>)
    requires e.Valid() && idx < t <= |e.lines| && e.marks[idx]
    requires current == e.lines[..t] + suffix
    ensures Insert(Insert(current, idx + 1, e.close), idx, e.open)
            == e.lines[..idx] + (Piece(e, idx) + (e.lines[idx + 1..t] + suffix))
  {
    InsertAround(current, idx, e.open, e.close);
    assert current[..idx] == e.lines[..idx];
    assert current[idx] == e.lines[idx];
    assert current[idx + 1..] == e.lines[idx + 1..t] + suffix;
  }

  /** The specification splits the same way at `idx`. */
  lemma WrappedSplit<T>(e: Edit<T>, idx: nat, t: nat, suffix: seq<T>)
    requires e.Valid() && idx < t <= |e.lines|
    requires forall p :: idx < p < t ==> !e.marks[p]
    ensures Wrapped(e, t) + suffix == Wrapped(e, idx) + (Piece(e, idx) + (e.lines[idx + 1..t] + suffix))
  {
    UnselectedRun(e, idx + 1, t);
    var a, p, m := Wrapped(e, idx), Piece(e, idx), e.lines[idx + 1..t];
    assert Wrapped(e, idx + 1) == a + p;
    ConcatAssoc(a, p, m, suffix);
  }

  lemma ConcatAssoc<T>(a: seq<T>, b: seq<T>, c: seq<T>, d: seq<T>)
    ensures a + b + c + d == a + (b + (c + d))
  {
  }

  // ---------------------------------------------------------------------
  // Lemmas about the specification.

  /** A run of unmarked lines is copied through unchanged. */
  lemma {:induction false} UnselectedRun<T>(e: Edit<T>, a: nat, b: nat)
    requires e.Valid() && a <= b <= |e.lines|
    requires forall p :: a <= p < b ==> !e.marks[p]
    ensures Wrapped(e, b) == Wrapped(e, a) + e.lines[a..b]
  {
    if a < b {
      UnselectedRun(e, a, b - 1);
      assert e.lines[a..b] == e.lines[a..b - 1] + [e.lines[b - 1]];
    }
  }

  /** If no line is selected the lines stay as they are. */
  lemma NoSelectionUnchanged(lines: seq<string>, name: string)
    requires SelectedCount(lines, name) == 0
    ensures Surround(lines, name) == lines
  {
    var e := Plan(lines, name);
    assert forall p :: 0 <= p < |lines| ==> !e.marks[p];
    UnselectedRun(e, 0, |lines|);
    assert lines[0..|lines|] == lines;
  }

  /** Each wrapped line adds exactly two lines. */
  lemma {:induction false} WrappedLength<T>(e: Edit<T>, k: nat)
    requires e.Valid() && k <= |e.lines|
    ensures |Wrapped(e, k)| == k + 2 * |Marked(e.marks, k)|
  {
    if k > 0 {
      WrappedLength(e, k - 1);
    }
  }

  /** The output length is the input length plus twice the number of
      selected lines. */
  lemma SurroundLength(lines: seq<string>, name: string)
    ensures |Surround(lines, name)| == |lines| + 2 * SelectedCount(lines, name)
  {
    WrappedLength(Plan(lines, name), |lines|);
  }

  /** Rewriting a prefix of the lines gives a prefix of the output. */
  lemma {:induction false} WrappedPrefix<T>(e: Edit<T>, k: nat, m: nat)
    requires e.Valid() && k <= m <= |e.lines|
    ensures |Wrapped(e, k)| <= |Wrapped(e, m)|
    ensures Wrapped(e, m)[..|Wrapped(e, k)|] == Wrapped(e, k)
  {
    if k < m {
      WrappedPrefix(e, k, m - 1);
      var g := Wrapped(e, m - 1);
      assert Wrapped(e, m) == g + Piece(e, m - 1);
      assert (g + Piece(e, m - 1))[..|g|] == g;
    }
  }

  /** The piece of line `k` sits in the output right after the output of the
      lines before it. */
  lemma PieceAt<T>(e: Edit<T>, k: nat, q: nat)
    requires e.Valid() && k < |e.lines| && q < |Piece(e, k)|
    ensures |Wrapped(e, k)| + q < |Wrapped(e, |e.lines|)|
    ensures Wrapped(e, |e.lines|)[|Wrapped(e, k)| + q] == Piece(e, k)[q]
  {
    var out := Wrapped(e, |e.lines|);
    var g := Wrapped(e, k);
    var g1 := Wrapped(e, k + 1);
    WrappedPrefix(e, k + 1, |e.lines|);
    assert g1 == g + Piece(e, k);
    assert out[..|g1|] == g1;
    assert out[|g| + q] == out[..|g1|][|g| + q];
  }

  /** Every original line appears in the output, in its original relative
      order, and a marked line is wrapped by the two added lines. */
  lemma LineLayout<T>(e: Edit<T>, k: nat)
    requires e.Valid() && k < |e.lines|
    ensures Pos(e, k) < |Wrapped(e, |e.lines|)|
    ensures Wrapped(e, |e.lines|)[Pos(e, k)] == e.lines[k]
    ensures e.marks[k] ==>
              Pos(e, k) + 1 < |Wrapped(e, |e.lines|)|
              && Wrapped(e, |e.lines|)[Pos(e, k) - 1] == e.open
              && Wrapped(e, |e.lines|)[Pos(e, k) + 1] == e.close
    ensures k + 1 < |e.lines| ==> Pos(e, k) < Pos(e, k + 1)
  {
    if e.marks[k] {
      PieceAt(e, k, 0);
      PieceAt(e, k, 1);
      PieceAt(e, k, 2);
    } else {
      PieceAt(e, k, 0);
    }
  }

  /** Only the two wrapping lines are added: every output line is an
      original line at its position `Pos`, or `open`, or `close`. */
  lemma {:induction false} WrappedOrigin<T>(e: Edit<T>, k: nat, p: nat)
    requires e.Valid() && k <= |e.lines| && p < |Wrapped(e, k)|
    ensures Wrapped(e, k)[p] == e.open || Wrapped(e, k)[p] == e.close
            || exists j :: 0 <= j < k && Pos(e, j) == p && Wrapped(e, k)[p] == e.lines[j]
  {
    var g := Wrapped(e, k - 1);
    assert Wrapped(e, k) == g + Piece(e, k - 1);
    if p < |g| {
      WrappedOrigin(e, k - 1, p);
    } else if e.marks[k - 1] {
      assert p - |g| == 1 ==> Pos(e, k - 1) == p;
    } else {
      assert Pos(e, k - 1) == p;
    }
  }

  /** The rewrite keeps every original line in order and adds only
      `#ifndef NAME` and `#endif` lines, two around each selected line. */
  lemma SurroundLayout(lines: seq<string>, name: string, k: nat)
    requires k < |lines|
    ensures Pos(Plan(lines, name), k) < |Surround(lines, name)|
    ensures Surround(lines, name)[Pos(Plan(lines, name), k)] == lines[k]
    ensures Selected(lines, name, k) ==>
              Pos(Plan(lines, name), k) + 1 < |Surround(lines, name)|
              && Surround(lines, name)[Pos(Plan(lines, name), k) - 1] == IfndefLine(name)
              && Surround(lines, name)[Pos(Plan(lines, name), k) + 1] == EndifLine
    ensures k + 1 < |lines| ==> Pos(Plan(lines, name), k) < Pos(Plan(lines, name), k + 1)
  {
    LineLayout(Plan(lines, name), k);
  }

  lemma OnlyGuardsAdded(lines: seq<string>, name: string, p: nat)
    requires p < |Surround(lines, name)|
    ensures Surround(lines, name)[p] == IfndefLine(name) || Surround(lines, name)[p] == EndifLine
            || exists j :: 0 <= j < |lines| && Pos(Plan(lines, name), j) == p && Surround(lines, name)[p] == lines[j]
  {
    WrappedOrigin(Plan(lines, name), |lines|, p);
  }

  /** A line whose first character is not whitespace matches a directive
      only by starting with its keyword. */
  lemma DirectiveAtStart(line: string, keyword: string, name: string)
    requires |line| > 0 && !IsSpace(line[0]) && Directive(line, keyword, name)
    ensures StartsWith(line, keyword)
  {
  }

  /** No line both defines and guards a name. */
  lemma {:induction false} DefineIsNotIfndef(line: string, name: string)
    requires IsDefine(line, name)
    ensures !IsIfndef(line, name)
    decreases |line|
  {
    if |line| > 0 && IsSpace(line[0]) {
      assert !StartsWith(line, "#define") && !StartsWith(line, "#ifndef");
      DefineIsNotIfndef(line[1..], name);
    } else {
      assert StartsWith(line, "#define");
      assert line[1] == 'd';
    }
  }

  /** The inserted guard matches the `#ifndef` pattern. */
  lemma IfndefLineGuards(name: string)
    ensures IsIfndef(IfndefLine(name), name)
  {
    var line := IfndefLine(name);
    assert StartsWith(line, "#ifndef");
    var rest := line[|"#ifndef"|..];
    assert rest == " " + name + "\n";
    assert StartsWith(rest[1..], name);
  }

  /** Neither inserted line is a definition. */
  lemma GuardLinesAreNotDefines(name: string)
    ensures !IsDefine(IfndefLine(name), name)
    ensures !IsDefine(EndifLine, name)
  {
    var line := IfndefLine(name);
    assert line[1] == 'i' && !StartsWith(line, "#define");
    if IsDefine(line, name) {
      DirectiveAtStart(line, "#define", name);
    }
    assert EndifLine[1] == 'e' && !StartsWith(EndifLine, "#define");
    if IsDefine(EndifLine, name) {
      DirectiveAtStart(EndifLine, "#define", name);
    }
  }

  /** In the output, an original line that defines `name` is guarded by the
      line before it. */
  lemma DefinePreceded(lines: seq<string>, name: string, k: nat)
    requires k < |lines| && IsDefine(lines[k], name)
    ensures Pos(Plan(lines, name), k) < |Surround(lines, name)|
    ensures IsIfndef(Surround(lines, name)[Prev(|Surround(lines, name)|, Pos(Plan(lines, name), k))], name)
  {
    var e := Plan(lines, name);
    var out := Surround(lines, name);
    LineLayout(e, k);
    var p := Pos(e, k);
    if e.marks[k] {
      assert Prev(|out|, p) == p - 1;
      IfndefLineGuards(name);
    } else {
      var before := Prev(|lines|, k);
      assert IsIfndef(lines[before], name);
      if IsDefine(lines[before], name) {
        DefineIsNotIfndef(lines[before], name);
      }
      assert !e.marks[before];
      PieceAt(e, before, 0);
      if k > 0 {
        assert |Wrapped(e, k)| == |Wrapped(e, k - 1)| + 1;
      } else {
        assert |out| == |Wrapped(e, |lines| - 1)| + 1;
      }
      assert Prev(|out|, p) == |Wrapped(e, before)|;
    }
  }

  /** Idempotence: the output selects no line, so a second run changes
      nothing and does not rewrite the file. */
  lemma Idempotent(lines: seq<string>, name: string)
    ensures SelectedCount(Surround(lines, name), name) == 0
    ensures Surround(Surround(lines, name), name) == Surround(lines, name)
  {
    var out := Surround(lines, name);
    forall p | 0 <= p < |out|
      ensures !Selected(out, name, p)
    {
      OnlyGuardsAdded(lines, name, p);
      GuardLinesAreNotDefines(name);
      if out[p] != IfndefLine(name) && out[p] != EndifLine {
        var j :| 0 <= j < |lines| && Pos(Plan(lines, name), j) == p && out[p] == lines[j];
        if IsDefine(lines[j], name) {
          DefinePreceded(lines, name, j);
        }
      }
    }
    NoneMarked(Marks(out, name), |out|);
    NoSelectionUnchanged(out, name);
  }
}
