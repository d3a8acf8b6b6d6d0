/**
 * The compilation of every `.bls` module of a build in dependency order
 * (git2patch.py:1447-1524): a depth-first walk over the uses graph that
 * compiles a module's dependencies before the module itself and never
 * compiles again a module that already compiled.
 */
module BlsCompile {

  import opened Wrappers
  import opened Text
  import opened Paths
  import opened UsesGraph

  /** The two markers of a good compilation; the first is spelt as `bscc` prints it. */
  const SuccessMarker := "Compiled succesfully"
  const WarningMarker := "Compiled with warnings"

  /**
   * The build's compiler as the script sees it: whether `bscc.exe` exists in
   * the build directory, and what it prints (decoded from windows-1251) when
   * asked to compile a module after the modules in the second argument have
   * compiled.
   */
  datatype Compiler = Compiler(present: bool, stdout: (string, seq<string>) -> string)

  /**
   * The output as the script logs it: a newline and three tabs in front, and
   * three tabs after every newline.
   */
  function Indented(out: string): (r: string)
    ensures |r| >= |out| + 4
  {
    "\n\t\t\t" + IndentLines(out)
  }

  function IndentLines(out: string): (r: string)
    ensures |r| >= |out|
  {
    if out == [] then []
    else (if out[0] == '\n' then "\n\t\t\t" else [out[0]]) + IndentLines(out[1..])
  }

  /** `__bls_compile_one_file__`'s verdict on the compiler's output (git2patch.py:1469-1470). */
  predicate CompiledOk(out: string)
  {
    var shown := Indented(out);
    Contains(shown, SuccessMarker) || Contains(shown, WarningMarker)
  }

  /** `m` has no character that the indentation inserts. */
  predicate Unindented(m: string)
  {
    forall k :: 0 <= k < |m| ==> m[k] != '\n' && m[k] != '\t'
  }

  lemma {:induction false} IndentLinesPlain(out: string, m: string, rest: string)
    requires Unindented(m) && out == m + rest
    ensures IndentLines(out) == m + IndentLines(rest)
    decreases |m|
  {
    if m != [] {
      assert out[0] == m[0] && out[0] != '\n';
      assert out[1..] == m[1..] + rest;
      IndentLinesPlain(out[1..], m[1..], rest);
      assert IndentLines(out) == [out[0]] + IndentLines(out[1..]);
      assert m + IndentLines(rest) == [m[0]] + (m[1..] + IndentLines(rest));
    } else {
      assert out == rest;
    }
  }

  lemma {:induction false} ContainsIndentLines(out: string, m: string, i: nat)
    requires Unindented(m) && OccursAt(out, m, i)
    ensures Contains(IndentLines(out), m)
    decreases i
  {
    if i == 0 {
      var rest := out[|m|..];
      assert out == m + rest;
      IndentLinesPlain(out, m, rest);
      assert OccursAt(IndentLines(out), m, 0);
    } else {
      assert out[1..][i - 1..i - 1 + |m|] == out[i..i + |m|];
      ContainsIndentLines(out[1..], m, i - 1);
      var head := if out[0] == '\n' then "\n\t\t\t" else [out[0]];
      var j: nat :| j <= |IndentLines(out[1..])| && OccursAt(IndentLines(out[1..]), m, j);
      assert IndentLines(out) == head + IndentLines(out[1..]);
      assert IndentLines(out)[|head| + j..|head| + j + |m|] == IndentLines(out[1..])[j..j + |m|];
      assert OccursAt(IndentLines(out), m, |head| + j);
    }
  }

  lemma {:induction false} IndentLinesPrefix(out: string, m: string)
    requires Unindented(m) && OccursAt(IndentLines(out), m, 0)
    ensures OccursAt(out, m, 0)
    decreases |out|
  {
    if m != [] {
      assert IndentLines(out)[0] == m[0];
      assert out != [] && out[0] != '\n';
      assert IndentLines(out)[1..] == IndentLines(out[1..]);
      assert IndentLines(out[1..])[..|m| - 1] == m[1..];
      IndentLinesPrefix(out[1..], m[1..]);
      assert out[..|m|] == [out[0]] + out[1..][..|m| - 1];
    }
  }

  lemma {:induction false} IndentLinesContains(out: string, m: string, i: nat)
    requires Unindented(m) && |m| > 0 && OccursAt(IndentLines(out), m, i)
    ensures Contains(out, m)
    decreases |out|
  {
    assert out != [];
    var head := if out[0] == '\n' then "\n\t\t\t" else [out[0]];
    assert IndentLines(out) == head + IndentLines(out[1..]);
    if i < |head| {
      assert IndentLines(out)[i] == m[0];
      assert i == 0 && out[0] != '\n';
      IndentLinesPrefix(out, m);
      assert OccursAt(out, m, 0);
    } else {
      assert IndentLines(out[1..])[i - |head|..i - |head| + |m|] == IndentLines(out)[i..i + |m|];
      IndentLinesContains(out[1..], m, i - |head|);
      var j: nat :| j <= |out[1..]| && OccursAt(out[1..], m, j);
      assert out[1 + j..1 + j + |m|] == out[1..][j..j + |m|];
      assert OccursAt(out, m, 1 + j);
    }
  }

  /** Searching the indented output finds a marker exactly when the raw output holds it. */
  lemma IndentedContains(out: string, m: string)
    requires Unindented(m) && |m| > 0
    ensures Contains(Indented(out), m) <==> Contains(out, m)
  {
    if Contains(out, m) {
      ContainsIndented(out, m);
    }
    if Contains(Indented(out), m) {
      IndentedContainsRaw(out, m);
    }
  }

  lemma ContainsIndented(out: string, m: string)
    requires Unindented(m) && Contains(out, m)
    ensures Contains(Indented(out), m)
  {
    var lines := IndentLines(out);
    var shown := Indented(out);
    assert shown == "\n\t\t\t" + lines;
    var i: nat :| i <= |out| && OccursAt(out, m, i);
    ContainsIndentLines(out, m, i);
    var j: nat :| j <= |lines| && OccursAt(lines, m, j);
    assert shown[4 + j..4 + j + |m|] == lines[j..j + |m|];
    assert OccursAt(shown, m, 4 + j);
  }

  lemma IndentedContainsRaw(out: string, m: string)
    requires Unindented(m) && |m| > 0 && Contains(Indented(out), m)
    ensures Contains(out, m)
  {
    var lines := IndentLines(out);
    var shown := Indented(out);
    assert shown == "\n\t\t\t" + lines;
    var i: nat :| i <= |shown| && OccursAt(shown, m, i);
    assert shown[i] == m[0];
    assert i >= 4;
    assert lines[i - 4..i - 4 + |m|] == shown[i..i + |m|];
    IndentLinesContains(out, m, i - 4);
  }

  /** The verdict depends only on whether the raw output holds one of the markers. */
  lemma CompiledOkRaw(out: string)
    ensures CompiledOk(out) <==> Contains(out, SuccessMarker) || Contains(out, WarningMarker)
  {
    IndentedContains(out, SuccessMarker);
    IndentedContains(out, WarningMarker);
  }

  /**
   * One run of `__bls_compile_one_file__`: `None` when `bscc.exe` is missing
   * (the `FileNotFoundError`), otherwise whether the output reports success.
   */
  function CompileOneFile(c: Compiler, key: string, compiled: seq<string>): (r: Option<bool>)
    ensures r.None? <==> !c.present
    ensures r.Some? ==> (r.value <==> Contains(c.stdout(key, compiled), SuccessMarker) || Contains(c.stdout(key, compiled), WarningMarker))
  {
    CompiledOkRaw(c.stdout(key, compiled));
    if !c.present then None else Some(CompiledOk(c.stdout(key, compiled)))
  }

  // ---------------------------------------------------------------------------
  // The walk as a function of its state
  // ---------------------------------------------------------------------------

  /** One run of the compiler: the module and whether it compiled. */
  datatype Call = Call(name: string, ok: bool)

  /**
   * The walk's state: `observed_list`, the compiler runs so far, and whether
   * the walk was ended by the `FileNotFoundError`.
   */
  datatype State = State(observed: seq<string>, calls: seq<Call>, aborted: bool)

  /**
   * A ranking that witnesses that the uses graph has no cycle: each
   * dependency found in the graph ranks below the module that uses it.
   * Without one the script recurses until Python's recursion limit.
   */
  ghost predicate Ranked(g: Graph, rank: map<string, nat>)
  {
    forall k :: k in g.entries ==>
      k in rank && forall d :: d in g.entries[k].deps && Lower(d) in g.entries ==> Lower(d) in rank && rank[Lower(d)] < rank[k]
  }

  ghost function Measure(g: Graph, rank: map<string, nat>, name: string): nat
  {
    if Lower(name) in g.entries && Lower(name) in rank then rank[Lower(name)] + 1 else 0
  }

  /** Compile `key` once, or record that the compiler is missing. */
  function CompileStep(c: Compiler, key: string, st: State): (r: State)
  {
    match CompileOneFile(c, key, st.observed)
    case None => st.(aborted := true)
    case Some(ok) => State(if ok then st.observed + [key] else st.observed, st.calls + [Call(key, ok)], false)
  }

  /** `__bls_compile_all_implementation__` for `name` (git2patch.py:1480-1504). */
  ghost function Visit(c: Compiler, g: Graph, rank: map<string, nat>, name: string, st: State): State
    requires Ranked(g, rank) && !st.aborted
    decreases Measure(g, rank, name), 1, 0
  {
    var key := Lower(name);
    if key in st.observed || key !in g.entries then st
    else
      var st' := VisitDeps(c, g, rank, key, 0, st);
      if st'.aborted then st' else CompileStep(c, key, st')
  }

  /** The loop over the dependencies of `key` from the `i`-th on; it ends with the exception. */
  ghost function VisitDeps(c: Compiler, g: Graph, rank: map<string, nat>, key: string, i: nat, st: State): State
    requires Ranked(g, rank) && key in g.entries && i <= |g.entries[key].deps|
    decreases rank[key] + 1, 0, |g.entries[key].deps| - i
  {
    var deps := g.entries[key].deps;
    if st.aborted || i == |deps| then st
    else VisitDeps(c, g, rank, key, i + 1, Visit(c, g, rank, deps[i], st))
  }

  /** The loop of `bls_compile_all` over the graph's keys from the `i`-th on (git2patch.py:1514-1518). */
  ghost function VisitAll(c: Compiler, g: Graph, rank: map<string, nat>, i: nat, st: State): State
    requires Ranked(g, rank) && i <= |g.order|
    decreases |g.order| - i
  {
    if st.aborted || i == |g.order| then st
    else VisitAll(c, g, rank, i + 1, Visit(c, g, rank, g.order[i], st))
  }

  /** The walk from an empty `observed_list`. */
  ghost function CompileAllSpec(c: Compiler, g: Graph, rank: map<string, nat>): State
    requires Ranked(g, rank)
  {
    VisitAll(c, g, rank, 0, State([], [], false))
  }

  // ---------------------------------------------------------------------------
  // The invariant of the walk
  // ---------------------------------------------------------------------------

  /** The modules of the successful runs, in order: what `observed_list` holds. */
  function Successes(calls: seq<Call>): seq<string>
  {
    if calls == [] then []
    else Successes(calls[..|calls| - 1]) + (if calls[|calls| - 1].ok then [calls[|calls| - 1].name] else [])
  }

  ghost predicate Attempted(calls: seq<Call>, k: string)
  {
    exists n :: 0 <= n < |calls| && calls[n].name == k
  }

  /**
   * The `n`-th run compiles a module of the graph that had not compiled
   * before, after every dependency of it that is in the graph was tried, and
   * gets the verdict of the compiler's output at that point.
   */
  ghost predicate CallGood(c: Compiler, g: Graph, calls: seq<Call>, n: nat)
    requires n < |calls|
  {
    var m := calls[n].name;
    m in g.entries
    && m !in Successes(calls[..n])
    && calls[n].ok == CompiledOk(c.stdout(m, Successes(calls[..n])))
    && forall d :: d in g.entries[m].deps && Lower(d) in g.entries ==> Attempted(calls[..n], Lower(d))
  }

  ghost predicate Good(c: Compiler, g: Graph, st: State)
  {
    st.observed == Successes(st.calls) && forall n :: 0 <= n < |st.calls| ==> CallGood(c, g, st.calls, n)
  }

  /** `calls'` extends `calls`. */
  ghost predicate Extends(calls': seq<Call>, calls: seq<Call>)
  {
    |calls| <= |calls'| && calls'[..|calls|] == calls
  }

  /** The runs after the first `from` are of modules ranked below `bound`. */
  ghost predicate RanksBelow(rank: map<string, nat>, calls: seq<Call>, from: nat, bound: nat)
  {
    forall n :: from <= n < |calls| ==> calls[n].name in rank && rank[calls[n].name] < bound
  }

  lemma {:induction false} SuccessesAppend(a: seq<Call>, b: seq<Call>)
    ensures Successes(a + b) == Successes(a) + Successes(b)
    decreases |b|
  {
    if b == [] {
      assert a + b == a;
    } else {
      var b' := b[..|b| - 1];
      assert (a + b)[..|a + b| - 1] == a + b';
      SuccessesAppend(a, b');
    }
  }

  lemma {:induction false} SuccessAttempted(calls: seq<Call>, k: string)
    requires k in Successes(calls)
    ensures exists n :: 0 <= n < |calls| && calls[n].name == k && calls[n].ok
    decreases |calls|
  {
    var last := calls[|calls| - 1];
    if !(last.ok && k == last.name) {
      SuccessAttempted(calls[..|calls| - 1], k);
    }
  }

  lemma AttemptedExtends(calls': seq<Call>, calls: seq<Call>, k: string)
    requires Extends(calls', calls) && Attempted(calls, k)
    ensures Attempted(calls', k)
  {
    var n :| 0 <= n < |calls| && calls[n].name == k;
    assert calls'[n] == calls[n];
  }

  lemma CallGoodExtends(c: Compiler, g: Graph, calls': seq<Call>, calls: seq<Call>, n: nat)
    requires Extends(calls', calls) && n < |calls| && CallGood(c, g, calls, n)
    ensures CallGood(c, g, calls', n)
  {
    assert calls'[..n] == calls[..n];
    assert calls'[n] == calls[n];
  }

  /** A run appended to a good state keeps it good when the run itself is good. */
  lemma GoodAppend(c: Compiler, g: Graph, st: State, call: Call)
    requires Good(c, g, st)
    requires CallGood(c, g, st.calls + [call], |st.calls|)
    ensures Good(c, g, State(st.observed + (if call.ok then [call.name] else []), st.calls + [call], false))
  {
    var calls' := st.calls + [call];
    assert calls'[..|calls'| - 1] == st.calls;
    forall n | 0 <= n < |st.calls|
      ensures CallGood(c, g, calls', n)
    {
      CallGoodExtends(c, g, calls', st.calls, n);
    }
  }

  /** Compiling `key` after its dependencies keeps the invariant. */
  lemma CompileStepGood(c: Compiler, g: Graph, rank: map<string, nat>, key: string, st: State, st': State)
    requires Ranked(g, rank) && key in g.entries && c.present
    requires Good(c, g, st) && key !in st.observed
    requires Good(c, g, st') && Extends(st'.calls, st.calls) && RanksBelow(rank, st'.calls, |st.calls|, rank[key])
    requires forall j :: 0 <= j < |g.entries[key].deps| && Lower(g.entries[key].deps[j]) in g.entries ==>
      Attempted(st'.calls, Lower(g.entries[key].deps[j]))
    ensures Good(c, g, CompileStep(c, key, st'))
    ensures Extends(CompileStep(c, key, st').calls, st'.calls)
    ensures |CompileStep(c, key, st').calls| == |st'.calls| + 1
    ensures CompileStep(c, key, st').calls[|st'.calls|].name == key
  {
    var ok := CompiledOk(c.stdout(key, st'.observed));
    var call := Call(key, ok);
    var calls' := st'.calls + [call];
    assert calls'[..|st'.calls|] == st'.calls;
    // `key` has not compiled meanwhile: every new run ranks below it.
    var added := st'.calls[|st.calls|..];
    assert st'.calls == st.calls + added;
    SuccessesAppend(st.calls, added);
    forall n | 0 <= n < |added|
      ensures added[n].name != key
    {
      assert added[n] == st'.calls[|st.calls| + n];
    }
    if key in Successes(added) {
      SuccessAttempted(added, key);
      assert false;
    }
    assert CallGood(c, g, calls', |st'.calls|);
    GoodAppend(c, g, st', call);
  }

  /**
   * The walk from `name` only appends runs, keeps the invariant, runs only
   * modules ranked no higher than `name`, and, unless the compiler is
   * missing, leaves `name` tried when it is in the graph.
   */
  lemma {:induction false} VisitGood(c: Compiler, g: Graph, rank: map<string, nat>, name: string, st: State)
    requires Ranked(g, rank) && !st.aborted && Good(c, g, st)
    ensures Extends(Visit(c, g, rank, name, st).calls, st.calls)
    ensures Good(c, g, Visit(c, g, rank, name, st))
    ensures RanksBelow(rank, Visit(c, g, rank, name, st).calls, |st.calls|, Measure(g, rank, name))
    ensures !Visit(c, g, rank, name, st).aborted && Lower(name) in g.entries ==>
      Attempted(Visit(c, g, rank, name, st).calls, Lower(name))
    ensures c.present ==> !Visit(c, g, rank, name, st).aborted
    decreases Measure(g, rank, name), 1, 0
  {
    var key := Lower(name);
    if key in st.observed {
      SuccessAttempted(st.calls, key);
    } else if key in g.entries {
      var st' := VisitDeps(c, g, rank, key, 0, st);
      VisitDepsGood(c, g, rank, key, 0, st);
      if !st'.aborted && c.present {
        CompileStepGood(c, g, rank, key, st, st');
        var r := CompileStep(c, key, st');
        assert r.calls[..|st'.calls|][..|st.calls|] == r.calls[..|st.calls|];
        assert r.calls[|st'.calls|].name == key;
        forall n | |st.calls| <= n < |r.calls|
          ensures r.calls[n].name in rank && rank[r.calls[n].name] < Measure(g, rank, name)
        {
          if n < |st'.calls| {
            assert r.calls[n] == st'.calls[n];
          }
        }
      }
    }
  }

  lemma {:induction false} VisitDepsGood(c: Compiler, g: Graph, rank: map<string, nat>, key: string, i: nat, st: State)
    requires Ranked(g, rank) && key in g.entries && i <= |g.entries[key].deps| && Good(c, g, st)
    requires !st.aborted ==> forall j :: 0 <= j < i && Lower(g.entries[key].deps[j]) in g.entries ==>
      Attempted(st.calls, Lower(g.entries[key].deps[j]))
    ensures Extends(VisitDeps(c, g, rank, key, i, st).calls, st.calls)
    ensures Good(c, g, VisitDeps(c, g, rank, key, i, st))
    ensures RanksBelow(rank, VisitDeps(c, g, rank, key, i, st).calls, |st.calls|, rank[key])
    ensures !VisitDeps(c, g, rank, key, i, st).aborted ==>
      forall j :: 0 <= j < |g.entries[key].deps| && Lower(g.entries[key].deps[j]) in g.entries ==>
        Attempted(VisitDeps(c, g, rank, key, i, st).calls, Lower(g.entries[key].deps[j]))
    ensures c.present ==> VisitDeps(c, g, rank, key, i, st).aborted == st.aborted
    decreases rank[key] + 1, 0, |g.entries[key].deps| - i
  {
    var deps := g.entries[key].deps;
    if !st.aborted && i < |deps| {
      var mid := Visit(c, g, rank, deps[i], st);
      VisitGood(c, g, rank, deps[i], st);
      forall j | 0 <= j < i + 1 && Lower(deps[j]) in g.entries && !mid.aborted
        ensures Attempted(mid.calls, Lower(deps[j]))
      {
        if j < i {
          AttemptedExtends(mid.calls, st.calls, Lower(deps[j]));
        }
      }
      VisitDepsGood(c, g, rank, key, i + 1, mid);
      var r := VisitDeps(c, g, rank, key, i + 1, mid);
      assert r.calls[..|mid.calls|][..|st.calls|] == r.calls[..|st.calls|];
      forall n | |st.calls| <= n < |r.calls|
        ensures r.calls[n].name in rank && rank[r.calls[n].name] < rank[key]
      {
        if n < |mid.calls| {
          assert r.calls[n] == mid.calls[n];
        }
      }
    }
  }

  /** The same facts for the loop over the graph's keys. */
  lemma {:induction false} VisitAllGood(c: Compiler, g: Graph, rank: map<string, nat>, i: nat, st: State)
    requires Ranked(g, rank) && i <= |g.order| && Good(c, g, st)
    requires !st.aborted ==> forall j :: 0 <= j < i && Lower(g.order[j]) in g.entries ==> Attempted(st.calls, Lower(g.order[j]))
    ensures Extends(VisitAll(c, g, rank, i, st).calls, st.calls)
    ensures Good(c, g, VisitAll(c, g, rank, i, st))
    ensures !VisitAll(c, g, rank, i, st).aborted ==>
      forall j :: 0 <= j < |g.order| && Lower(g.order[j]) in g.entries ==>
        Attempted(VisitAll(c, g, rank, i, st).calls, Lower(g.order[j]))
    ensures c.present ==> VisitAll(c, g, rank, i, st).aborted == st.aborted
    decreases |g.order| - i
  {
    if !st.aborted && i < |g.order| {
      var mid := Visit(c, g, rank, g.order[i], st);
      VisitGood(c, g, rank, g.order[i], st);
      forall j | 0 <= j < i + 1 && Lower(g.order[j]) in g.entries && !mid.aborted
        ensures Attempted(mid.calls, Lower(g.order[j]))
      {
        if j < i {
          AttemptedExtends(mid.calls, st.calls, Lower(g.order[j]));
        }
      }
      VisitAllGood(c, g, rank, i + 1, mid);
      var r := VisitAll(c, g, rank, i + 1, mid);
      assert r.calls[..|mid.calls|][..|st.calls|] == r.calls[..|st.calls|];
    }
  }

  // ---------------------------------------------------------------------------
  // What the walk guarantees
  // ---------------------------------------------------------------------------

  /** The graph's keys are lower-case, as `bls_get_uses_graph` makes them. */
  ghost predicate LowerKeys(g: Graph)
  {
    forall k :: k in g.entries ==> Lower(k) == k
  }

  lemma GraphOfLowerKeys(files: seq<SourceFile>)
    requires GraphOf(files).Some?
    ensures LowerKeys(GraphOf(files).value)
  {
    GraphOfDefined(files);
    GraphOfKeys(files);
    forall k | k in GraphOf(files).value.entries
      ensures Lower(k) == k
    {
      var i :| 0 <= i < |files| && FileKey(files[i].path) == k;
      LowerIdempotent(LastPathElement(files[i].path));
    }
  }

  lemma {:induction false} SuccessesDistinct(calls: seq<Call>)
    requires forall n :: 0 <= n < |calls| ==> calls[n].name !in Successes(calls[..n])
    ensures Distinct(Successes(calls))
    ensures forall k :: k in Successes(calls) ==> exists n :: 0 <= n < |calls| && calls[n].name == k
    decreases |calls|
  {
    if calls != [] {
      var init := calls[..|calls| - 1];
      forall n | 0 <= n < |init|
        ensures init[n].name !in Successes(init[..n])
      {
        assert init[..n] == calls[..n];
      }
      SuccessesDistinct(init);
      forall k | k in Successes(calls)
        ensures exists n :: 0 <= n < |calls| && calls[n].name == k
      {
        if k in Successes(init) {
          var n :| 0 <= n < |init| && init[n].name == k;
          assert calls[n] == init[n];
        }
      }
    }
  }

  lemma {:induction false} AllOkSuccesses(calls: seq<Call>)
    requires forall n :: 0 <= n < |calls| ==> calls[n].ok
    ensures |Successes(calls)| == |calls|
    ensures forall n :: 0 <= n < |calls| ==> Successes(calls)[n] == calls[n].name
    decreases |calls|
  {
    if calls != [] {
      AllOkSuccesses(calls[..|calls| - 1]);
    }
  }

  /** A duplicate-free sequence whose elements all occur in `t` is no longer than `t`. */
  lemma {:induction false} DistinctWithin<T>(s: seq<T>, t: seq<T>)
    requires Distinct(s) && forall i :: 0 <= i < |s| ==> s[i] in t
    ensures |s| <= |t|
    decreases |s|
  {
    if s != [] {
      var k :| 0 <= k < |t| && t[k] == s[0];
      var t' := t[..k] + t[k + 1..];
      forall i | 0 <= i < |s| - 1
        ensures s[1..][i] in t'
      {
        var m :| 0 <= m < |t| && t[m] == s[i + 1];
        if m < k {
          assert t'[m] == t[m];
        } else {
          assert m != k && t'[m - 1] == t[m];
        }
      }
      DistinctWithin(s[1..], t');
    }
  }

  /**
   * Whatever the compiler prints, `observed_list` ends without duplicates,
   * holds only modules of the graph, and so has at most one entry per key:
   * the "COMPILED n of m" line never reports n > m.
   */
  lemma CompileAllObserved(c: Compiler, g: Graph, rank: map<string, nat>)
    requires Ranked(g, rank) && WellFormed(g)
    ensures Distinct(CompileAllSpec(c, g, rank).observed)
    ensures forall k :: k in CompileAllSpec(c, g, rank).observed ==> k in g.entries
    ensures |CompileAllSpec(c, g, rank).observed| <= |g.order|
  {
    var st := State([], [], false);
    VisitAllGood(c, g, rank, 0, st);
    var r := CompileAllSpec(c, g, rank);
    forall n | 0 <= n < |r.calls|
      ensures r.calls[n].name !in Successes(r.calls[..n])
    {
      assert CallGood(c, g, r.calls, n);
    }
    SuccessesDistinct(r.calls);
    forall k | k in r.observed
      ensures k in g.entries
    {
      var n :| 0 <= n < |r.calls| && r.calls[n].name == k;
      assert CallGood(c, g, r.calls, n);
    }
    DistinctWithin(r.observed, g.order);
  }

  /**
   * When `bscc.exe` is missing, the first module the walk reaches raises
   * `FileNotFoundError`: nothing is run, nothing compiles and
   * `bls_compile_all` returns False.
   */
  lemma {:induction false} NoCompilerVisit(c: Compiler, g: Graph, rank: map<string, nat>, name: string, st: State)
    requires Ranked(g, rank) && !st.aborted && !c.present
    ensures Visit(c, g, rank, name, st).calls == st.calls
    ensures Visit(c, g, rank, name, st).observed == st.observed
    ensures Visit(c, g, rank, name, st).aborted <==> Lower(name) in g.entries && Lower(name) !in st.observed
    decreases Measure(g, rank, name), 1, 0
  {
    var key := Lower(name);
    if key !in st.observed && key in g.entries {
      NoCompilerVisitDeps(c, g, rank, key, 0, st);
    }
  }

  lemma {:induction false} NoCompilerVisitDeps(c: Compiler, g: Graph, rank: map<string, nat>, key: string, i: nat, st: State)
    requires Ranked(g, rank) && key in g.entries && i <= |g.entries[key].deps| && !c.present
    ensures VisitDeps(c, g, rank, key, i, st).calls == st.calls
    ensures VisitDeps(c, g, rank, key, i, st).observed == st.observed
    ensures st.aborted ==> VisitDeps(c, g, rank, key, i, st).aborted
    decreases rank[key] + 1, 0, |g.entries[key].deps| - i
  {
    var deps := g.entries[key].deps;
    if !st.aborted && i < |deps| {
      NoCompilerVisit(c, g, rank, deps[i], st);
      NoCompilerVisitDeps(c, g, rank, key, i + 1, Visit(c, g, rank, deps[i], st));
    }
  }

  lemma CompileAllNoCompiler(c: Compiler, g: Graph, rank: map<string, nat>)
    requires Ranked(g, rank) && WellFormed(g) && LowerKeys(g) && !c.present && g.order != []
    ensures CompileAllSpec(c, g, rank).aborted
    ensures CompileAllSpec(c, g, rank).calls == []
    ensures CompileAllSpec(c, g, rank).observed == []
  {
    var st := State([], [], false);
    assert g.order[0] in g.entries;
    NoCompilerVisit(c, g, rank, g.order[0], st);
    var mid := Visit(c, g, rank, g.order[0], st);
    assert VisitAll(c, g, rank, 0, st) == VisitAll(c, g, rank, 1, mid);
  }

  /** In a good state whose runs all succeeded, `observed_list` is in dependency order. */
  lemma AllOkOrdered(c: Compiler, g: Graph, st: State)
    requires Good(c, g, st) && forall n :: 0 <= n < |st.calls| ==> st.calls[n].ok
    ensures |st.observed| == |st.calls|
    ensures forall n :: 0 <= n < |st.calls| ==> st.observed[n] == st.calls[n].name
    ensures forall n, d ::
      0 <= n < |st.observed| && st.observed[n] in g.entries &&
      d in g.entries[st.observed[n]].deps && Lower(d) in g.entries ==>
        Lower(d) in st.observed[..n]
  {
    AllOkSuccesses(st.calls);
    forall n, d | 0 <= n < |st.observed| && st.observed[n] in g.entries &&
      d in g.entries[st.observed[n]].deps && Lower(d) in g.entries
      ensures Lower(d) in st.observed[..n]
    {
      assert CallGood(c, g, st.calls, n);
      var m :| 0 <= m < n && st.calls[..n][m].name == Lower(d);
      assert st.observed[..n][m] == Lower(d);
    }
  }

  /**
   * When the compiler is present and every module compiles, the walk returns
   * True, `observed_list` ends holding exactly the modules of the graph, and
   * each module follows every dependency of it that is in the graph.
   */
  lemma CompileAllAllSucceed(c: Compiler, g: Graph, rank: map<string, nat>)
    requires Ranked(g, rank) && WellFormed(g) && LowerKeys(g) && c.present
    requires forall k, done :: CompiledOk(c.stdout(k, done))
    ensures !CompileAllSpec(c, g, rank).aborted
    ensures forall k :: k in CompileAllSpec(c, g, rank).observed <==> k in g.entries
    ensures forall n, d ::
      0 <= n < |CompileAllSpec(c, g, rank).observed| &&
      d in g.entries[CompileAllSpec(c, g, rank).observed[n]].deps && Lower(d) in g.entries ==>
        Lower(d) in CompileAllSpec(c, g, rank).observed[..n]
  {
    var st := State([], [], false);
    VisitAllGood(c, g, rank, 0, st);
    var r := CompileAllSpec(c, g, rank);
    forall n | 0 <= n < |r.calls|
      ensures r.calls[n].ok && r.calls[n].name in g.entries
    {
      assert CallGood(c, g, r.calls, n);
    }
    AllOkOrdered(c, g, r);
    forall k | k in g.entries
      ensures k in r.observed
    {
      var j :| 0 <= j < |g.order| && g.order[j] == k;
      assert Attempted(r.calls, Lower(g.order[j]));
      var n :| 0 <= n < |r.calls| && r.calls[n].name == k;
      assert r.observed[n] == k;
    }
  }

  /**
   * A module of the graph that has not compiled is run again each time the
   * walk reaches it, so a module whose compilation failed is retried from
   * every module that uses it.
   */
  lemma VisitRetries(c: Compiler, g: Graph, rank: map<string, nat>, name: string, st: State)
    requires Ranked(g, rank) && !st.aborted && Good(c, g, st) && c.present
    requires Lower(name) in g.entries && Lower(name) !in st.observed
    ensures |Visit(c, g, rank, name, st).calls| > |st.calls|
    ensures Visit(c, g, rank, name, st).calls[|Visit(c, g, rank, name, st).calls| - 1].name == Lower(name)
  {
    var key := Lower(name);
    VisitDepsGood(c, g, rank, key, 0, st);
    var st' := VisitDeps(c, g, rank, key, 0, st);
    CompileStepGood(c, g, rank, key, st, st');
  }

  // ---------------------------------------------------------------------------
  // The walk over `observed_list` in place
  // ---------------------------------------------------------------------------

  /**
   * One compilation of a build: the compiler, the uses graph, and the
   * `observed_list` that the recursion appends to. `calls` records the
   * compiler runs for the proofs; `rank` witnesses that the graph has no
   * cycle.
   */
  class Compilation {
    const compiler: Compiler
    const graph: Graph
    ghost const rank: map<string, nat>
    var observed: seq<string>
    ghost var calls: seq<Call>

    constructor (compiler: Compiler, graph: Graph, ghost rank: map<string, nat>)
      ensures this.compiler == compiler && this.graph == graph && this.rank == rank
      ensures observed == [] && calls == []
    {
      this.compiler := compiler;
      this.graph := graph;
      this.rank := rank;
      observed := [];
      calls := [];
    }

    /**
     * `__bls_compile_all_implementation__` (git2patch.py:1480-1504);
     * `aborted` stands for the `FileNotFoundError` it lets through.
     */
    method CompileModule(name: string) returns (aborted: bool)
      requires Ranked(graph, rank)
      modifies this
      ensures State(observed, calls, aborted) == Visit(compiler, graph, rank, name, State(old(observed), old(calls), false))
      decreases Measure(graph, rank, name), 1
    {
      ghost var st0 := State(observed, calls, false);
      var key := Lower(name);
      if key in observed || key !in graph.entries {
        return false;
      }
      var deps := graph.entries[key].deps;
      var i := 0;
      while i < |deps|
        invariant 0 <= i <= |deps|
        invariant VisitDeps(compiler, graph, rank, key, i, State(observed, calls, false)) == VisitDeps(compiler, graph, rank, key, 0, st0)
        decreases |deps| - i
      {
        assert deps[i] in graph.entries[key].deps;
        aborted := CompileModule(deps[i]);
        if aborted {
          return;
        }
        i := i + 1;
      }
      var outcome := CompileOneFile(compiler, key, observed);
      if outcome.None? {
        return true;
      }
      if outcome.value {
        observed := observed + [key];
      }
      calls := calls + [Call(key, outcome.value)];
      aborted := false;
    }

    /** The loop of `bls_compile_all` over the graph's keys (git2patch.py:1512-1524). */
    method CompileAll() returns (ok: bool)
      requires Ranked(graph, rank) && observed == [] && calls == []
      modifies this
      ensures State(observed, calls, !ok) == CompileAllSpec(compiler, graph, rank)
    {
      var i := 0;
      while i < |graph.order|
        invariant 0 <= i <= |graph.order|
        invariant VisitAll(compiler, graph, rank, i, State(observed, calls, false)) == CompileAllSpec(compiler, graph, rank)
        decreases |graph.order| - i
      {
        var aborted := CompileModule(graph.order[i]);
        if aborted {
          return false;
        }
        i := i + 1;
      }
      return true;
    }
  }
}
