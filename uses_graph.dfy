/**
 * The dependency graph of the BLS modules (`bls_get_uses_graph`,
 * git2patch.py:1400-1445): comments are stripped from each module's text,
 * its `uses ... ;` clauses are read, and every module gets an entry keyed by
 * its lower-cased file name holding its path and its dependency list.
 */
module UsesGraph {

  import opened Wrappers
  import opened Text
  import opened Paths

  // ---------------------------------------------------------------------------
  // Comment stripping (`__replace_unwanted_symbols__`, git2patch.py:1401-1405)
  // ---------------------------------------------------------------------------

  /** The three comment patterns, in the order they are removed (git2patch.py:1413-1417). */
  datatype CommentKind =
    | Brace       // `{[\S\s]*?}`
    | ParenStar   // `\(\*[\S\s]*?\*\)`
    | LineComment // `//.*` (`.` stops at a newline)

  /** The first index `q >= from` where `*)` starts. */
  function StarParenFrom(s: string, from: nat): (r: Option<nat>)
    decreases |s| - from
    ensures r.Some? ==> from <= r.value && r.value + 2 <= |s| && s[r.value] == '*' && s[r.value + 1] == ')'
    ensures r.Some? ==> forall k :: from <= k < r.value ==> !(s[k] == '*' && s[k + 1] == ')')
  {
    if from + 2 > |s| then None
    else if s[from] == '*' && s[from + 1] == ')' then Some(from)
    else StarParenFrom(s, from + 1)
  }

  /**
   * The end of the match of `kind` that starts at `p`, if the pattern matches
   * there. The lazy `*?` makes a brace or paren-star comment end at the first
   * closer after its opener.
   */
  function MatchEnd(kind: CommentKind, s: string, p: nat): (r: Option<nat>)
    ensures r.Some? ==> p + 2 <= r.value <= |s|
    ensures r.Some? && kind == Brace ==>
      s[p] == '{' && s[r.value - 1] == '}' && forall k :: p < k < r.value - 1 ==> s[k] != '}'
    ensures r.Some? && kind == ParenStar ==>
      s[p] == '(' && s[p + 1] == '*' && s[r.value - 2] == '*' && s[r.value - 1] == ')'
    ensures r.Some? && kind == LineComment ==>
      s[p] == '/' && s[p + 1] == '/' && forall k :: p <= k < r.value ==> s[k] != '\n'
  {
    match kind
    case Brace =>
      if p < |s| && s[p] == '{' then
        match IndexFrom(s, '}', p + 1)
        case Some(q) => Some(q + 1)
        case None => None
      else None
    case ParenStar =>
      if p + 2 <= |s| && s[p] == '(' && s[p + 1] == '*' then
        match StarParenFrom(s, p + 2)
        case Some(q) => Some(q + 2)
        case None => None
      else None
    case LineComment =>
      if p + 2 <= |s| && s[p] == '/' && s[p + 1] == '/' then
        match IndexFrom(s, '\n', p + 2)
        case Some(q) => Some(q)
        case None => Some(|s|)
      else None
  }

  /** `re.findall(pattern, s)` from position `p`: leftmost, non-overlapping matches. */
  function FindAll(kind: CommentKind, s: string, p: nat): (r: seq<string>)
    decreases |s| - p
    ensures forall k :: 0 <= k < |r| ==> |r[k]| >= 2 && Contains(s, r[k])
  {
    if p >= |s| then []
    else
      match MatchEnd(kind, s, p)
      case Some(e) =>
        assert OccursAt(s, s[p..e], p);
        [s[p..e]] + FindAll(kind, s, e)
      case None => FindAll(kind, s, p + 1)
  }

  /** `string = string.replace(m, '')` for each `m` of `ms` in turn. */
  function RemoveEach(s: string, ms: seq<string>): string
    requires forall k :: 0 <= k < |ms| ==> |ms[k]| > 0
    decreases |ms|
  {
    if ms == [] then s else RemoveEach(ReplaceAll(s, ms[0]), ms[1..])
  }

  /** The text after one call of `__replace_unwanted_symbols__`. */
  function StripKind(kind: CommentKind, s: string): string
  {
    RemoveEach(s, FindAll(kind, s, 0))
  }

  /** Brace comments first, then `(* *)` comments, then line comments (git2patch.py:1411-1417). */
  function StripComments(text: string): string
  {
    StripKind(LineComment, StripKind(ParenStar, StripKind(Brace, text)))
  }

  lemma {:induction false} RemoveEachSubseq(s: string, ms: seq<string>)
    requires forall k :: 0 <= k < |ms| ==> |ms[k]| > 0
    ensures Subseq(RemoveEach(s, ms), s)
    decreases |ms|
  {
    if ms == [] {
      SubseqRefl(s);
    } else {
      var s1 := ReplaceAll(s, ms[0]);
      ReplaceAllSubseq(s, ms[0]);
      RemoveEachSubseq(s1, ms[1..]);
      SubseqTrans(RemoveEach(s1, ms[1..]), s1, s);
    }
  }

  /** Comment stripping only deletes characters: what is left is a subsequence of the text. */
  lemma StripCommentsSubseq(text: string)
    ensures Subseq(StripComments(text), text)
  {
    var t1 := StripKind(Brace, text);
    var t2 := StripKind(ParenStar, t1);
    RemoveEachSubseq(text, FindAll(Brace, text, 0));
    RemoveEachSubseq(t1, FindAll(ParenStar, t1, 0));
    RemoveEachSubseq(t2, FindAll(LineComment, t2, 0));
    SubseqTrans(t2, t1, text);
    SubseqTrans(StripComments(text), t2, text);
  }

  /** A text without the opener of a comment kind is left as it is. */
  lemma {:induction false} FindAllNone(kind: CommentKind, s: string, p: nat)
    requires forall k :: p <= k < |s| ==> MatchEnd(kind, s, k).None?
    ensures FindAll(kind, s, p) == []
    decreases |s| - p
  {
    if p < |s| {
      FindAllNone(kind, s, p + 1);
    }
  }

  lemma StripCommentsNoComment(text: string)
    requires forall k :: 0 <= k < |text| ==> text[k] != '{' && text[k] != '(' && text[k] != '/'
    ensures StripComments(text) == text
  {
    FindAllNone(Brace, text, 0);
    FindAllNone(ParenStar, text, 0);
    FindAllNone(LineComment, text, 0);
  }

  /**
   * Brace comments go first: one that holds `//` or `(*` is removed whole,
   * and what follows it is left as it is.
   */
  lemma BraceCommentFirst(body: string, rest: string)
    requires forall k :: 0 <= k < |body| ==> body[k] != '}'
    requires forall k :: 0 <= k < |rest| ==> rest[k] != '{' && rest[k] != '(' && rest[k] != '/'
    ensures StripComments("{" + body + "}" + rest) == rest
  {
    var comment := "{" + body + "}";
    var t := comment + rest;
    assert t == "{" + body + "}" + rest;
    assert IndexFrom(t, '}', 1) == Some(|comment| - 1) by {
      assert t[|comment| - 1] == '}';
      assert forall k :: 1 <= k < |comment| - 1 ==> t[k] == body[k - 1];
    }
    assert MatchEnd(Brace, t, 0) == Some(|comment|);
    assert t[0..|comment|] == comment;
    forall k | |comment| <= k < |t|
      ensures MatchEnd(Brace, t, k).None?
    {
      assert t[k] == rest[k - |comment|];
    }
    FindAllNone(Brace, t, |comment|);
    assert FindAll(Brace, t, 0) == [comment];
    assert t[..|comment|] == comment && t[|comment|..] == rest;
    assert !Contains(rest, comment) by {
      if i: nat :| i <= |rest| && OccursAt(rest, comment, i) {
        assert rest[i] == comment[0];
      }
    }
    ReplaceAllAbsent(rest, comment);
    assert ReplaceAll(t, comment) == rest;
    assert [comment][1..] == [] && [comment][0] == comment;
    assert RemoveEach(t, [comment]) == RemoveEach(rest, []) == rest;
    assert StripKind(Brace, t) == rest;
    FindAllNone(ParenStar, rest, 0);
    FindAllNone(LineComment, rest, 0);
  }

  /**
   * The imperative stripper: collect the matches, then delete each one's
   * literal text everywhere in the current string.
   */
  method ReplaceUnwantedSymbols(kind: CommentKind, text: string) returns (r: string)
    ensures r == StripKind(kind, text)
    ensures Subseq(r, text)
  {
    var matches := FindAll(kind, text, 0);
    r := text;
    SubseqRefl(text);
    for i := 0 to |matches|
      invariant RemoveEach(r, matches[i..]) == StripKind(kind, text)
      invariant Subseq(r, text)
    {
      assert matches[i..][1..] == matches[i + 1..];
      ReplaceAllSubseq(r, matches[i]);
      SubseqTrans(ReplaceAll(r, matches[i]), r, text);
      r := ReplaceAll(r, matches[i]);
    }
  }

  // ---------------------------------------------------------------------------
  // `uses` clauses (git2patch.py:1419-1437)
  // ---------------------------------------------------------------------------

  /** The look-behind `(?<=\buses\s)` holds at `p` (the keyword in any letter case). */
  predicate UsesBefore(t: string, p: nat)
  {
    5 <= p <= |t| && Lower(t[p - 5..p - 1]) == "uses" && IsSpace(t[p - 1])
    && (p == 5 || !IsWordChar(t[p - 6]))
  }

  /**
   * `re.findall(r'(?s)(?<=\buses\s)(.*?)(?=;)', t, flags=re.IGNORECASE)` from
   * position `p`, as `findall` works since Python 3.7: each clause is the
   * text from just after `uses` and one whitespace character up to the next
   * `;`, and the search resumes where the match ended. After an empty match
   * (`retry`) a match may start at the same position only if it is not
   * empty, so the lazy `.*?` takes that `;` too and runs up to the following
   * one. Once no `;` is left nothing more can match.
   */
  function UsesClauses(t: string, p: nat, retry: bool): (r: seq<string>)
    requires p <= |t|
    decreases |t| - p, if retry then 0 else 1
    ensures forall k :: 0 <= k < |r| ==> forall j :: 0 < j < |r[k]| ==> r[k][j] != ';'
  {
    if UsesBefore(t, p) then
      match IndexFrom(t, ';', if retry then p + 1 else p)
      case None => []
      case Some(q) => [t[p..q]] + UsesClauses(t, q, q == p)
    else if p < |t| then UsesClauses(t, p + 1, false)
    else []
  }

  /** `re.findall` over the whole text. */
  function FindUses(t: string): seq<string>
  {
    UsesClauses(t, 0, false)
  }

  /** A match of the pattern: from a position after `uses` and a space up to a `;`, with no `;` in between. */
  ghost predicate ClauseAt(t: string, a: nat, b: nat)
  {
    a <= b < |t| && UsesBefore(t, a) && t[b] == ';' && forall j :: a < j < b ==> t[j] != ';'
  }

  /** `c` is the text of a match starting at or after `p`. */
  ghost predicate MatchFrom(t: string, p: nat, c: string)
  {
    exists a: nat, b: nat :: p <= a && ClauseAt(t, a, b) && c == t[a..b]
  }

  lemma MatchFromEarlier(t: string, p: nat, p': nat, c: string)
    requires p <= p' && MatchFrom(t, p', c)
    ensures MatchFrom(t, p, c)
  {
    var a: nat, b: nat :| p' <= a && ClauseAt(t, a, b) && c == t[a..b];
    assert p <= a;
  }

  /** Every clause found from `p` is the text of a match starting at or after `p`. */
  lemma {:induction false} UsesClausesSound(t: string, p: nat, retry: bool)
    requires p <= |t|
    ensures forall k :: 0 <= k < |UsesClauses(t, p, retry)| ==> MatchFrom(t, p, UsesClauses(t, p, retry)[k])
    decreases |t| - p, if retry then 0 else 1
  {
    var r := UsesClauses(t, p, retry);
    var next: nat, again: bool;
    if UsesBefore(t, p) {
      match IndexFrom(t, ';', if retry then p + 1 else p)
      case None =>
        assert r == [];
        return;
      case Some(q) =>
        assert ClauseAt(t, p, q);
        assert MatchFrom(t, p, t[p..q]);
        assert r == [t[p..q]] + UsesClauses(t, q, q == p);
        next, again := q, q == p;
    } else if p < |t| {
      assert r == UsesClauses(t, p + 1, false);
      next, again := p + 1, false;
    } else {
      return;
    }
    var rest := UsesClauses(t, next, again);
    UsesClausesSound(t, next, again);
    forall c | c in rest
      ensures MatchFrom(t, p, c)
    {
      MatchFromEarlier(t, p, next, c);
    }
  }

  /**
   * `uses ;x;`: the empty clause before the first `;` is followed by the
   * clause `;x`, which starts at the same position but is not empty.
   */
  lemma RetryAfterEmptyMatch(t: string)
    requires t == "uses ;x;"
    ensures FindUses(t) == ["", ";x"]
  {
    assert Lower(t[0..4]) == "uses";
    assert UsesBefore(t, 5);
    assert IndexFrom(t, ';', 5) == Some(5);
    assert IndexFrom(t, ';', 6) == Some(7);
    assert UsesClauses(t, 7, false) == [] by {
      assert !UsesBefore(t, 7) && !UsesBefore(t, 8);
    }
    assert t[5..7] == ";x" && t[5..5] == "";
    assert UsesClauses(t, 5, true) == [";x"];
    assert UsesClauses(t, 5, false) == ["", ";x"];
    assert forall p :: 0 <= p < 5 ==> !UsesBefore(t, p);
    assert UsesClauses(t, 4, false) == UsesClauses(t, 5, false);
    assert UsesClauses(t, 3, false) == UsesClauses(t, 4, false);
    assert UsesClauses(t, 2, false) == UsesClauses(t, 3, false);
    assert UsesClauses(t, 1, false) == UsesClauses(t, 2, false);
  }

  /** A position after `uses` and a space with a `;` at or after it yields a clause. */
  lemma {:induction false} UsesClausesFound(t: string, p: nat, retry: bool, a: nat, b: nat)
    requires p <= a <= b < |t| && UsesBefore(t, a) && t[b] == ';'
    requires retry ==> p < a
    ensures UsesClauses(t, p, retry) != []
    decreases a - p
  {
    if !UsesBefore(t, p) {
      UsesClausesFound(t, p + 1, false, a, b);
    } else if retry {
      assert IndexFrom(t, ';', p + 1).Some?;
    } else {
      assert IndexFrom(t, ';', p).Some?;
    }
  }

  /** `re.findall` finds something exactly when some `uses` and a space are followed, later on, by a `;`. */
  lemma FindUsesNonEmpty(t: string)
    ensures FindUses(t) != [] <==>
      exists a: nat, b: nat :: a <= b < |t| && UsesBefore(t, a) && t[b] == ';'
  {
    if FindUses(t) != [] {
      var r := UsesClauses(t, 0, false);
      UsesClausesSound(t, 0, false);
      assert 0 < |r|;
      assert MatchFrom(t, 0, r[0]);
      var a: nat, b: nat :| 0 <= a && ClauseAt(t, a, b) && r[0] == t[a..b];
      assert a <= b < |t| && UsesBefore(t, a) && t[b] == ';';
    }
    if exists a: nat, b: nat :: a <= b < |t| && UsesBefore(t, a) && t[b] == ';' {
      var a: nat, b: nat :| a <= b < |t| && UsesBefore(t, a) && t[b] == ';';
      UsesClausesFound(t, 0, false, a, b);
    }
  }

  /** A well-formed dependency: a trimmed, non-empty name followed by `.bls`. */
  predicate IsDependency(d: string)
  {
    |d| > 4 && d[|d| - 4..] == ".bls" && Trim(d[..|d| - 4]) == d[..|d| - 4]
  }

  lemma TrimIdempotent(s: string)
    ensures Trim(Trim(s)) == Trim(s)
  {
    var r := Trim(s);
    assert r != [] ==> !IsSpace(r[0]) && !IsSpace(r[|r| - 1]);
  }

  /** `[p.strip() + '.bls' for p in pieces if p.strip()]`. */
  function DepsOfPieces(pieces: seq<string>): seq<string>
  {
    if pieces == [] then []
    else
      var rest := DepsOfPieces(pieces[1..]);
      var name := Trim(pieces[0]);
      if name == [] then rest else [name + ".bls"] + rest
  }

  lemma {:induction false} DepsOfPiecesWellFormed(pieces: seq<string>)
    ensures |DepsOfPieces(pieces)| <= |pieces|
    ensures forall k :: 0 <= k < |DepsOfPieces(pieces)| ==> IsDependency(DepsOfPieces(pieces)[k])
    decreases |pieces|
  {
    if pieces != [] {
      DepsOfPiecesWellFormed(pieces[1..]);
      var rest := DepsOfPieces(pieces[1..]);
      var name := Trim(pieces[0]);
      if name != [] {
        TrimIdempotent(pieces[0]);
        NamedDependency(name, rest);
      }
    }
  }

  /** A trimmed name with `.bls` appended, put in front of well-formed dependencies. */
  lemma NamedDependency(name: string, rest: seq<string>)
    requires name != [] && Trim(name) == name
    requires forall k :: 0 <= k < |rest| ==> IsDependency(rest[k])
    ensures forall k :: 0 <= k < |[name + ".bls"] + rest| ==> IsDependency(([name + ".bls"] + rest)[k])
  {
    assert (name + ".bls")[..|name|] == name;
    var r := [name + ".bls"] + rest;
    forall k | 0 <= k < |r|
      ensures IsDependency(r[k])
    {
      if k > 0 {
        assert r[k] == rest[k - 1];
      }
    }
  }

  /** The dependencies one clause declares: split on commas (git2patch.py:1432). */
  function DepsOfClause(clause: string): seq<string>
  {
    DepsOfPieces(Split(clause, ','))
  }

  /** The clauses' dependencies, accumulated in source order (git2patch.py:1430-1437). */
  function DepsOfClauses(clauses: seq<string>): (r: seq<string>)
  {
    if clauses == [] then []
    else DepsOfClauses(clauses[..|clauses| - 1]) + DepsOfClause(clauses[|clauses| - 1])
  }

  lemma DepsOfClausesSnoc(clauses: seq<string>, j: nat)
    requires j < |clauses|
    ensures DepsOfClauses(clauses[..j + 1]) == DepsOfClauses(clauses[..j]) + DepsOfClause(clauses[j])
  {
    assert clauses[..j + 1][..j] == clauses[..j];
  }

  lemma {:induction false} DepsOfClausesWellFormed(clauses: seq<string>)
    ensures forall k :: 0 <= k < |DepsOfClauses(clauses)| ==> IsDependency(DepsOfClauses(clauses)[k])
    decreases |clauses|
  {
    if clauses != [] {
      DepsOfClausesWellFormed(clauses[..|clauses| - 1]);
      DepsOfPiecesWellFormed(Split(clauses[|clauses| - 1], ','));
    }
  }

  /** The dependency list of a module with text `text`. */
  function DepsOf(text: string): (r: seq<string>)
  {
    var stripped := StripComments(text);
    DepsOfClauses(FindUses(stripped))
  }

  /**
   * Every dependency is a trimmed, non-empty name with `.bls` appended; its
   * letter case is left as written.
   */
  lemma DepsOfWellFormed(text: string)
    ensures forall k :: 0 <= k < |DepsOf(text)| ==> IsDependency(DepsOf(text)[k])
  {
    DepsOfClausesWellFormed(FindUses(StripComments(text)));
  }

  /** A module whose text, comments removed, has no `uses` followed by white space has no dependencies. */
  lemma NoUsesNoDeps(text: string)
    requires forall p: nat :: p <= |StripComments(text)| ==> !UsesBefore(StripComments(text), p)
    ensures DepsOf(text) == []
  {
    FindUsesNonEmpty(StripComments(text));
  }

  /** The example `{ // x } uses Foo;`: the line comment inside the braces does not hide the clause. */
  lemma CommentedUses(text: string)
    requires text == "{ // x } uses Foo;"
    ensures DepsOf(text) == ["Foo.bls"]
  {
    var body, rest := " // x ", " uses Foo;";
    assert text == "{" + body + "}" + rest;
    ExamplePieces(body, rest);
    BraceCommentFirst(body, rest);
    UsesOfRest();
    var clauses := FindUses(rest);
    assert clauses == ["Foo"];
    ExampleClause(clauses, clauses[0]);
    assert DepsOf(text) == DepsOfClauses(clauses);
  }

  /** The example's comment body has no `}` and the text after it opens no comment. */
  lemma ExamplePieces(body: string, rest: string)
    requires body == " // x " && rest == " uses Foo;"
    ensures forall k :: 0 <= k < |body| ==> body[k] != '}'
    ensures forall k :: 0 <= k < |rest| ==> rest[k] != '{' && rest[k] != '(' && rest[k] != '/'
  {
  }

  lemma UsesOfRest()
    ensures FindUses(" uses Foo;") == ["Foo"]
  {
    var t := " uses Foo;";
    assert Lower(t[1..5]) == "uses";
    assert UsesBefore(t, 6);
    assert IndexFrom(t, ';', 6) == Some(9);
    assert t[6..9] == "Foo";
    assert UsesClauses(t, 9, false) == [] by {
      assert !UsesBefore(t, 9) && !UsesBefore(t, 10);
    }
    assert forall p :: 0 <= p < 6 ==> !UsesBefore(t, p);
  }

  lemma ExampleClause(clauses: seq<string>, name: string)
    requires clauses == [name] && name == "Foo"
    ensures DepsOfClauses(clauses) == ["Foo.bls"]
  {
    assert IndexFrom(name, ',', 0).None?;
    assert Split(name, ',') == [name];
    assert !IsSpace(name[0]) && !IsSpace(name[2]);
    assert SpaceRunEnd(name, 0) == 0;
    assert SpaceRunStart(name, 3) == 3;
    assert Trim(name) == name;
    assert [name][1..] == [];
    assert DepsOfPieces([name]) == [name + ".bls"];
    assert clauses[..|clauses| - 1] == [];
    assert name + ".bls" == "Foo.bls";
  }

  // ---------------------------------------------------------------------------
  // The graph (git2patch.py:1407-1445)
  // ---------------------------------------------------------------------------

  /**
   * A listed `.bls` file; `text` is `None` when neither windows-1251 nor
   * utf-8 decodes it (`open_encoding_aware` returns `None`).
   */
  datatype SourceFile = SourceFile(path: string, text: Option<string>)

  /** The `[path, deps]` value of the script's dictionary. */
  datatype Entry = Entry(path: string, deps: seq<string>)

  /**
   * The dictionary: `entries` maps each key to its entry and `order` lists
   * the keys in insertion order, the order in which Python iterates them.
   */
  datatype Graph = Graph(order: seq<string>, entries: map<string, Entry>)

  ghost predicate Distinct<T>(s: seq<T>)
  {
    forall i, j :: 0 <= i < j < |s| ==> s[i] != s[j]
  }

  /** `order` lists every key exactly once. */
  ghost predicate WellFormed(g: Graph)
  {
    Distinct(g.order) && (forall k :: k in g.entries <==> k in g.order)
  }

  /** The dictionary key of a file: its lower-cased file name. */
  function FileKey(path: string): string
  {
    Lower(LastPathElement(path))
  }

  /** What one decodable file contributes: its key and its `[path, deps]` entry. */
  datatype Scanned = Scanned(key: string, entry: Entry)

  function ScanFile(path: string, text: string): Scanned
  {
    Scanned(FileKey(path), Entry(path, DepsOf(text)))
  }

  /**
   * Each listed file scanned on its own; `None` for a file whose text cannot
   * be decoded.
   */
  function Scans(files: seq<SourceFile>): (r: seq<Option<Scanned>>)
    ensures |r| == |files|
  {
    seq(|files|, i requires 0 <= i < |files| =>
      if files[i].text.Some? then Some(ScanFile(files[i].path, files[i].text.value)) else None)
  }

  /**
   * `bls_uses_graph.update({key: [path, deps]})`: a new key goes to the end
   * of the order; an existing key has its entry replaced in place.
   */
  function Insert(g: Graph, s: Scanned): Graph
  {
    Graph(if s.key in g.entries then g.order else g.order + [s.key], g.entries[s.key := s.entry])
  }

  /**
   * The loop over the scanned files. A file whose text cannot be decoded
   * makes `with None as f` raise, which ends the whole scan (`None`).
   */
  function Build(scans: seq<Option<Scanned>>): Option<Graph>
  {
    if scans == [] then Some(Graph([], map[]))
    else
      match Build(scans[..|scans| - 1])
      case None => None
      case Some(g) =>
        match scans[|scans| - 1]
        case None => None
        case Some(s) => Some(Insert(g, s))
  }

  /** The graph built from the listed files, in listing order. */
  function GraphOf(files: seq<SourceFile>): Option<Graph>
  {
    Build(Scans(files))
  }

  /** Setting a key twice keeps the second value. */
  lemma UpdateTwice<K, V>(m: map<K, V>, k: K, a: V, b: V)
    ensures m[k := a][k := b] == m[k := b]
  {
  }

  /**
   * The loop over one file's clauses (git2patch.py:1429-1437): the entry of
   * `key` is first reset to `[path, []]`, then its list is extended by each
   * clause's dependencies.
   */
  method AccumulateUses(entries: map<string, Entry>, key: string, path: string, clauses: seq<string>)
    returns (entries': map<string, Entry>)
    ensures entries' == entries[key := Entry(path, DepsOfClauses(clauses))]
  {
    entries' := entries[key := Entry(path, [])];
    for j := 0 to |clauses|
      invariant entries' == entries[key := Entry(path, DepsOfClauses(clauses[..j]))]
    {
      var uses := DepsOfClause(clauses[j]);
      DepsOfClausesSnoc(clauses, j);
      ghost var before := DepsOfClauses(clauses[..j]);
      if uses != [] {
        UpdateTwice(entries, key, Entry(path, before), Entry(path, before + uses));
        entries' := entries'[key := Entry(path, entries'[key].deps + uses)];
      } else {
        assert before + uses == before;
      }
    }
    assert clauses[..|clauses|] == clauses;
  }

  /** One pass of the loop body for a decodable file (git2patch.py:1409-1437). */
  method AddFileEntry(order: seq<string>, entries: map<string, Entry>, path: string, text: string)
    returns (order': seq<string>, entries': map<string, Entry>)
    ensures Graph(order', entries') == Insert(Graph(order, entries), ScanFile(path, text))
  {
    var stripped := ReplaceUnwantedSymbols(Brace, text);
    stripped := ReplaceUnwantedSymbols(ParenStar, stripped);
    stripped := ReplaceUnwantedSymbols(LineComment, stripped);
    assert stripped == StripComments(text);
    var clauses := FindUses(stripped);
    var key := FileKey(path);
    order' := if key in entries then order else order + [key];
    entries' := AccumulateUses(entries, key, path, clauses);
    assert DepsOfClauses(clauses) == DepsOf(text);
  }

  /** `bls_get_uses_graph` on the listed files. */
  method BuildUsesGraph(files: seq<SourceFile>) returns (r: Option<Graph>)
    ensures r == GraphOf(files)
  {
    var order: seq<string> := [];
    var entries: map<string, Entry> := map[];
    ghost var scans := Scans(files);
    for i := 0 to |files|
      invariant Build(scans[..i]) == Some(Graph(order, entries))
    {
      assert scans[..i + 1][..i] == scans[..i];
      var file := files[i];
      if file.text.None? {
        assert Build(scans[..i + 1]) == None;
        assert Build(scans) == None by { BuildNoneStays(scans, i + 1); }
        return None;
      }
      order, entries := AddFileEntry(order, entries, file.path, file.text.value);
    }
    assert scans[..|files|] == scans;
    r := Some(Graph(order, entries));
  }

  // ---------------------------------------------------------------------------
  // Properties of the graph
  // ---------------------------------------------------------------------------

  /** Once the scan has raised, later files do not matter. */
  lemma {:induction false} BuildNoneStays(scans: seq<Option<Scanned>>, n: nat)
    requires n <= |scans| && Build(scans[..n]).None?
    ensures Build(scans).None?
    decreases |scans| - n
  {
    if n < |scans| {
      assert scans[..n + 1][..n] == scans[..n];
      BuildNoneStays(scans, n + 1);
    } else {
      assert scans[..n] == scans;
    }
  }

  /** The scan succeeds exactly when every file does. */
  lemma {:induction false} BuildDefined(scans: seq<Option<Scanned>>)
    ensures Build(scans).Some? <==> forall i :: 0 <= i < |scans| ==> scans[i].Some?
    decreases |scans|
  {
    if scans != [] {
      var n := |scans| - 1;
      BuildDefined(scans[..n]);
      assert forall i :: 0 <= i < n ==> scans[..n][i] == scans[i];
    }
  }

  /** `order` lists every key exactly once. */
  lemma {:induction false} BuildWellFormed(scans: seq<Option<Scanned>>)
    requires Build(scans).Some?
    ensures WellFormed(Build(scans).value)
    decreases |scans|
  {
    if scans != [] {
      var n := |scans| - 1;
      BuildWellFormed(scans[..n]);
      var g0 := Build(scans[..n]).value;
      var g := Build(scans).value;
      var key := scans[n].value.key;
      if key !in g0.entries {
        assert g.order == g0.order + [key];
        forall p, q | 0 <= p < q < |g.order| ensures g.order[p] != g.order[q] {
          if q == |g0.order| {
            assert g.order[p] == g0.order[p];
          }
        }
      }
    }
  }

  /** The keys are exactly the keys of the scanned files. */
  lemma {:induction false} BuildKeys(scans: seq<Option<Scanned>>)
    requires Build(scans).Some?
    ensures forall i :: 0 <= i < |scans| ==> scans[i].Some?
    ensures forall k :: k in Build(scans).value.entries <==>
      exists i :: 0 <= i < |scans| && scans[i].value.key == k
    decreases |scans|
  {
    BuildDefined(scans);
    if scans != [] {
      var n := |scans| - 1;
      var init := scans[..n];
      BuildKeys(init);
      var g0 := Build(init).value;
      var g := Build(scans).value;
      var last := scans[n].value.key;
      assert g.entries == g0.entries[last := scans[n].value.entry];
      forall k
        ensures k in g.entries <==> exists i :: 0 <= i < |scans| && scans[i].value.key == k
      {
        assert k in g.entries <==> k in g0.entries || k == last;
        if k in g0.entries {
          var i :| 0 <= i < |init| && init[i].value.key == k;
          assert scans[i] == init[i];
        }
        if exists i :: 0 <= i < |scans| && scans[i].value.key == k {
          var i :| 0 <= i < |scans| && scans[i].value.key == k;
          if i < n {
            assert init[i] == scans[i];
          }
        }
      }
    }
  }

  /** The last scan with a given key is the one whose entry survives. */
  ghost predicate LastScanWithKey(scans: seq<Option<Scanned>>, i: nat)
    requires forall j :: 0 <= j < |scans| ==> scans[j].Some?
  {
    i < |scans| && forall j :: i < j < |scans| ==> scans[j].value.key != scans[i].value.key
  }

  lemma {:induction false} BuildLastEntry(scans: seq<Option<Scanned>>, i: nat)
    requires Build(scans).Some?
    requires forall j :: 0 <= j < |scans| ==> scans[j].Some?
    requires LastScanWithKey(scans, i)
    ensures scans[i].value.key in Build(scans).value.entries
    ensures Build(scans).value.entries[scans[i].value.key] == scans[i].value.entry
    decreases |scans|
  {
    var n := |scans| - 1;
    var init := scans[..n];
    if i < n {
      assert forall j :: 0 <= j < n ==> init[j] == scans[j];
      assert LastScanWithKey(init, i);
      BuildLastEntry(init, i);
    }
  }

  predicate AllDecodable(files: seq<SourceFile>)
  {
    forall i :: 0 <= i < |files| ==> files[i].text.Some?
  }

  /** The scan fails exactly when some listed file cannot be decoded. */
  lemma GraphOfDefined(files: seq<SourceFile>)
    ensures GraphOf(files).Some? <==> AllDecodable(files)
  {
    var scans := Scans(files);
    BuildDefined(scans);
    assert GraphOf(files) == Build(scans);
    assert forall i :: 0 <= i < |files| ==> (scans[i].Some? <==> files[i].text.Some?);
  }

  /**
   * Every scanned file has an entry under its lower-cased file name, and
   * nothing else does; `order` lists the keys once each.
   */
  lemma GraphOfKeys(files: seq<SourceFile>)
    requires AllDecodable(files)
    ensures GraphOf(files).Some?
    ensures WellFormed(GraphOf(files).value)
    ensures forall k :: k in GraphOf(files).value.entries <==>
      exists i :: 0 <= i < |files| && FileKey(files[i].path) == k
  {
    GraphOfDefined(files);
    var scans := Scans(files);
    BuildWellFormed(scans);
    BuildKeys(scans);
    assert forall i :: 0 <= i < |files| ==> scans[i].value.key == FileKey(files[i].path);
  }

  /** The file listed last with a given key is the one whose entry survives. */
  ghost predicate LastWithKey(files: seq<SourceFile>, i: nat)
  {
    i < |files| && forall j :: i < j < |files| ==> FileKey(files[j].path) != FileKey(files[i].path)
  }

  /**
   * The entry of a key holds the path and the dependencies of the last file
   * listed with that key: a later file with the same name resets the entry.
   */
  lemma GraphOfLastEntry(files: seq<SourceFile>, i: nat)
    requires AllDecodable(files)
    requires LastWithKey(files, i)
    ensures GraphOf(files).Some?
    ensures FileKey(files[i].path) in GraphOf(files).value.entries
    ensures GraphOf(files).value.entries[FileKey(files[i].path)] == Entry(files[i].path, DepsOf(files[i].text.value))
  {
    var scans := Scans(files);
    GraphOfDefined(files);
    BuildDefined(scans);
    assert forall j :: 0 <= j < |files| ==> scans[j].value.key == FileKey(files[j].path);
    assert LastScanWithKey(scans, i);
    BuildLastEntry(scans, i);
  }
}
