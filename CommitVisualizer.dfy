/** visualizer.py: every commit object of the store whose author time is not
    after a date, ordered by that time, its parent lists, and the PlantUML text
    of the parent-to-child edges. */
module CommitVisualizer {
  import opened PyText
  import opened Dicts
  import opened ObjectStore
  import opened TimeOrder

  // ---------------------------------------------------------------------------
  // parse_commit_object

  /** What parse_commit_object returns: the tree value, the parent hashes in
      file order and the author time, None where no line set them. */
  datatype Summary = Summary(tree: Option<string>, parents: seq<string>, authorTime: Option<int>)

  const NoLinesSeen := Summary(None, [], None)

  predicate IsTreeLine(line: string) { "tree" <= line }
  predicate IsParentLine(line: string) { "parent" <= line }
  predicate IsAuthorLine(line: string) { "author" <= line }

  /** The time an `author` line gives: its next to last word as an integer;
      None where the line has one word or that word is not a number. */
  function AuthorTimeOf(line: string): Option<int> {
    var words := Tokens(line);
    if |words| < 2 then None else ParseInt(words[|words| - 2])
  }

  /** A line whose handling raises: a tree or parent line with one word
      (IndexError), an author line with one word (IndexError) or whose next to
      last word is not an integer (ValueError). */
  predicate Malformed(line: string) {
    var words := Tokens(line);
    if IsTreeLine(line) || IsParentLine(line) then |words| < 2
    else IsAuthorLine(line) && AuthorTimeOf(line).None?
  }

  /** The loop of parse_commit_object from `acc` on: the first matching prefix
      decides a line, and the empty line ends the loop. */
  function Summarize(acc: Summary, lines: seq<string>): Result<Summary>
    decreases |lines|
  {
    if lines == [] then Ok(acc)
    else
      var line := lines[0];
      var words := Tokens(line);
      if IsTreeLine(line) then
        if |words| < 2 then Err(IndexError) else Summarize(acc.(tree := Some(words[1])), lines[1..])
      else if IsParentLine(line) then
        if |words| < 2 then Err(IndexError) else Summarize(acc.(parents := acc.parents + [words[1]]), lines[1..])
      else if IsAuthorLine(line) then
        if |words| < 2 then Err(IndexError)
        else
          match ParseInt(words[|words| - 2])
          case None => Err(ValueError)
          case Some(t) => Summarize(acc.(authorTime := Some(t)), lines[1..])
      else if line == [] then Ok(acc)
      else Summarize(acc, lines[1..])
  }

  function CommitSummary(commitData: string): Result<Summary> {
    Summarize(NoLinesSeen, SplitOn(commitData, '\n'))
  }

  method ParseCommitObject(commitData: string) returns (r: Result<Summary>)
    ensures r == CommitSummary(commitData)
  {
    var lines := SplitOn(commitData, '\n');
    var parents: seq<string> := [];
    var treeHash: Option<string> := None;
    var authorTime: Option<int> := None;
    var i := 0;
    assert lines[0..] == lines;
    while i < |lines|
      invariant 0 <= i <= |lines|
      invariant CommitSummary(commitData) == Summarize(Summary(treeHash, parents, authorTime), lines[i..])
    {
      var line := lines[i];
      assert lines[i..][0] == line && lines[i..][1..] == lines[i + 1..];
      var words := Tokens(line);
      if IsTreeLine(line) {
        if |words| < 2 {
          return Err(IndexError);
        }
        treeHash := Some(words[1]);
      } else if IsParentLine(line) {
        if |words| < 2 {
          return Err(IndexError);
        }
        parents := parents + [words[1]];
      } else if IsAuthorLine(line) {
        if |words| < 2 {
          return Err(IndexError);
        }
        var t := ParseInt(words[|words| - 2]);
        if t.None? {
          return Err(ValueError);
        }
        authorTime := Some(t.value);
      } else if line == [] {
        break;
      }
      i := i + 1;
    }
    r := Ok(Summary(treeHash, parents, authorTime));
  }

  /** The second words of the `parent` lines before the first empty line, in order. */
  function ParentsOf(lines: seq<string>): seq<string>
    decreases |lines|
  {
    if lines == [] || lines[0] == [] then []
    else
      var words := Tokens(lines[0]);
      (if IsParentLine(lines[0]) && |words| >= 2 then [words[1]] else []) + ParentsOf(lines[1..])
  }

  /** The number of `parent` lines before the first empty line. */
  function ParentLineCount(lines: seq<string>): nat
    decreases |lines|
  {
    if lines == [] || lines[0] == [] then 0
    else (if IsParentLine(lines[0]) then 1 else 0) + ParentLineCount(lines[1..])
  }

  /** The effect of one line on the summary: the first matching prefix
      decides it, and a line without one leaves the summary as it is. */
  function Step(acc: Summary, line: string): (r: Result<Summary>)
    ensures r.Err? <==> Malformed(line)
    ensures r.Ok? ==> r.value.tree == (if IsTreeLine(line) then Some(Tokens(line)[1]) else acc.tree)
  {
    var words := Tokens(line);
    if IsTreeLine(line) then
      if |words| < 2 then Err(IndexError) else Ok(acc.(tree := Some(words[1])))
    else if IsParentLine(line) then
      if |words| < 2 then Err(IndexError) else Ok(acc.(parents := acc.parents + [words[1]]))
    else if IsAuthorLine(line) then
      if |words| < 2 then Err(IndexError)
      else
        match ParseInt(words[|words| - 2])
        case None => Err(ValueError)
        case Some(t) => Ok(acc.(authorTime := Some(t)))
    else Ok(acc)
  }

  /** The loop before the first empty line is one step per line. */
  lemma SummarizeUnfold(acc: Summary, lines: seq<string>)
    requires lines != [] && lines[0] != []
    ensures Summarize(acc, lines) ==
      match Step(acc, lines[0])
      case Err(e) => Err(e)
      case Ok(next) => Summarize(next, lines[1..])
  {
  }

  /** A step appends the second word of a `parent` line and keeps the parents otherwise. */
  lemma StepParents(acc: Summary, line: string)
    requires Step(acc, line).Ok?
    ensures Step(acc, line).value.parents == acc.parents + (if IsParentLine(line) && !IsTreeLine(line) then [Tokens(line)[1]] else [])
  {
  }

  /** A step sets the author time from an `author` line and keeps it otherwise. */
  lemma StepAuthorTime(acc: Summary, line: string)
    requires Step(acc, line).Ok?
    ensures IsAuthorLine(line) ==> AuthorTimeOf(line).Some? && Step(acc, line).value.authorTime == AuthorTimeOf(line)
    ensures !IsAuthorLine(line) ==> Step(acc, line).value.authorTime == acc.authorTime
  {
    assert !(IsAuthorLine(line) && (IsTreeLine(line) || IsParentLine(line))) by {
      if IsAuthorLine(line) {
        assert line[0] == 'a';
      }
    }
  }

  /** On success the parents are those of the `parent` lines, in file order. */
  lemma {:induction false} SummarizeParents(acc: Summary, lines: seq<string>)
    requires Summarize(acc, lines).Ok?
    ensures Summarize(acc, lines).value.parents == acc.parents + ParentsOf(lines)
    decreases |lines|
  {
    if lines != [] && lines[0] != [] {
      SummarizeUnfold(acc, lines);
      var next := Step(acc, lines[0]).value;
      SummarizeParents(next, lines[1..]);
      StepParents(acc, lines[0]);
      ParentsOfUnfold(lines);
    }
  }

  lemma ParentsOfUnfold(lines: seq<string>)
    requires lines != [] && lines[0] != []
    ensures ParentsOf(lines) == (if IsParentLine(lines[0]) && |Tokens(lines[0])| >= 2 then [Tokens(lines[0])[1]] else []) + ParentsOf(lines[1..])
  {
  }

  /** On success there is one parent per `parent` line: a merge with N parent
      lines has N parents, a root commit none. */
  lemma {:induction false} SummarizeParentCount(acc: Summary, lines: seq<string>)
    requires Summarize(acc, lines).Ok?
    ensures |ParentsOf(lines)| == ParentLineCount(lines)
    decreases |lines|
  {
    if lines != [] && lines[0] != [] {
      SummarizeUnfold(acc, lines);
      SummarizeParentCount(Step(acc, lines[0]).value, lines[1..]);
      ParentsOfUnfold(lines);
    }
  }

  /** Some line before the first empty line is malformed. */
  predicate MalformedBefore(lines: seq<string>) {
    exists j :: 0 <= j < FirstBlank(lines) && Malformed(lines[j])
  }

  lemma MalformedBeforeUnfold(lines: seq<string>)
    requires lines != [] && lines[0] != []
    ensures MalformedBefore(lines) <==> Malformed(lines[0]) || MalformedBefore(lines[1..])
  {
    assert FirstBlank(lines) == 1 + FirstBlank(lines[1..]);
    if MalformedBefore(lines[1..]) {
      var j :| 0 <= j < FirstBlank(lines[1..]) && Malformed(lines[1..][j]);
      assert lines[j + 1] == lines[1..][j];
    }
    if MalformedBefore(lines) && !Malformed(lines[0]) {
      var j :| 0 <= j < FirstBlank(lines) && Malformed(lines[j]);
      assert lines[1..][j - 1] == lines[j];
    }
  }

  /** The loop fails exactly when a line before the first empty line is malformed. */
  lemma {:induction false} SummarizeFails(acc: Summary, lines: seq<string>)
    ensures Summarize(acc, lines).Err? <==> MalformedBefore(lines)
    decreases |lines|
  {
    if lines != [] && lines[0] != [] {
      SummarizeUnfold(acc, lines);
      MalformedBeforeUnfold(lines);
      if !Malformed(lines[0]) {
        SummarizeFails(Step(acc, lines[0]).value, lines[1..]);
      }
    }
  }

  /** No line from index `j` up to the first empty line is an `author` line. */
  predicate NoAuthorFrom(lines: seq<string>, j: nat) {
    forall k :: j <= k < FirstBlank(lines) ==> !IsAuthorLine(lines[k])
  }

  lemma NoAuthorFromTail(lines: seq<string>, j: nat)
    requires lines != [] && lines[0] != [] && 1 <= j && NoAuthorFrom(lines, j)
    ensures NoAuthorFrom(lines[1..], j - 1)
  {
    assert FirstBlank(lines) == 1 + FirstBlank(lines[1..]);
    forall k | j - 1 <= k < FirstBlank(lines[1..]) ensures !IsAuthorLine(lines[1..][k]) {
      assert lines[1..][k] == lines[k + 1];
    }
  }

  /** The author time is set by the last `author` line before the first empty line. */
  lemma {:induction false} SummarizeAuthorTime(acc: Summary, lines: seq<string>, j: nat)
    requires Summarize(acc, lines).Ok?
    requires j < FirstBlank(lines) && IsAuthorLine(lines[j]) && NoAuthorFrom(lines, j + 1)
    ensures AuthorTimeOf(lines[j]).Some?
    ensures Summarize(acc, lines).value.authorTime == AuthorTimeOf(lines[j])
    decreases |lines|
  {
    SummarizeUnfold(acc, lines);
    if j == 0 {
      LastAuthorLineFirst(acc, lines);
    } else {
      var next := Step(acc, lines[0]).value;
      NoAuthorFromTail(lines, j + 1);
      assert FirstBlank(lines) == 1 + FirstBlank(lines[1..]);
      assert lines[1..][j - 1] == lines[j];
      SummarizeAuthorTime(next, lines[1..], j - 1);
    }
  }

  lemma LastAuthorLineFirst(acc: Summary, lines: seq<string>)
    requires Summarize(acc, lines).Ok?
    requires 0 < FirstBlank(lines) && IsAuthorLine(lines[0]) && NoAuthorFrom(lines, 1)
    ensures AuthorTimeOf(lines[0]).Some?
    ensures Summarize(acc, lines).value.authorTime == AuthorTimeOf(lines[0])
  {
    SummarizeUnfold(acc, lines);
    StepAuthorTime(acc, lines[0]);
    NoAuthorFromTail(lines, 1);
    AuthorTimeKept(Step(acc, lines[0]).value, lines[1..]);
  }

  /** Without an `author` line before the first empty line the author time stays as it was. */
  lemma {:induction false} AuthorTimeKept(acc: Summary, lines: seq<string>)
    requires Summarize(acc, lines).Ok? && NoAuthorFrom(lines, 0)
    ensures Summarize(acc, lines).value.authorTime == acc.authorTime
    decreases |lines|
  {
    if lines != [] && lines[0] != [] {
      SummarizeUnfold(acc, lines);
      StepAuthorTime(acc, lines[0]);
      assert !IsAuthorLine(lines[0]);
      NoAuthorFromTail(lines, 1);
      AuthorTimeKept(Step(acc, lines[0]).value, lines[1..]);
    }
  }

  /** visualizer.py parses the whole object, header included, so the first
      line it sees is "<header>\0<first payload line>": it starts with the
      header's "commit", none of the prefixes match it, and the first payload
      line (normally the tree line) is never looked at. */
  lemma FullTextSkipsFirstLine(header: string, text: string)
    requires "commit" <= header && '\n' !in header
    ensures CommitSummary(header + ['\0'] + text) == Summarize(NoLinesSeen, SplitOn(text, '\n')[1..])
  {
    SplitOnPrefix(header + ['\0'], text, '\n');
    var lines := SplitOn(header + ['\0'] + text, '\n');
    var first := header + ['\0'] + SplitOn(text, '\n')[0];
    assert lines == [first] + SplitOn(text, '\n')[1..];
    assert first[..|"commit"|] == header[..|"commit"|];
    assert !IsTreeLine(first) && !IsParentLine(first) && !IsAuthorLine(first) && first != [];
    assert lines[1..] == SplitOn(text, '\n')[1..];
  }

  // ---------------------------------------------------------------------------
  // get_all_commits

  /** The hashes the directory walk produces, `basename(root) + filename`, with no length filter. */
  function WalkHashes(walk: seq<(string, string)>): (hs: seq<string>)
    ensures |hs| == |walk|
  {
    seq(|walk|, k requires 0 <= k < |walk| => Basename(walk[k].0) + walk[k].1)
  }

  /** The author time under which one object is kept, or None when it is
      skipped: a missing object, one not starting with "commit", an undecodable
      one, one whose parsing raises, one without an author line (comparing
      None with the date raises TypeError) and one after the date; all of them
      are caught by `except Exception`. */
  function Candidate(store: Store, h: string, dateBefore: int): Option<int> {
    if h !in store || !("commit" <= store[h].header) then None
    else
      match FullText(store[h])
      case None => None
      case Some(text) =>
        match CommitSummary(text)
        case Err(_) => None
        case Ok(s) =>
          if s.authorTime.Some? && s.authorTime.value <= dateBefore then s.authorTime else None
  }

  /** The (hash, author time) pairs the walk collects, in walk order. */
  function Selected(store: Store, hashes: seq<string>, dateBefore: int): seq<Stamped> {
    if hashes == [] then []
    else
      var h := hashes[|hashes| - 1];
      Selected(store, hashes[..|hashes| - 1], dateBefore)
        + match Candidate(store, h, dateBefore) case None => [] case Some(t) => [(h, t)]
  }

  function HashesOf(s: seq<Stamped>): (hs: seq<string>)
    ensures |hs| == |s| && forall k :: 0 <= k < |s| ==> hs[k] == s[k].0
  {
    seq(|s|, k requires 0 <= k < |s| => s[k].0)
  }

  /** The result of get_all_commits. */
  function AllCommits(store: Store, walk: seq<(string, string)>, dateBefore: int): seq<string> {
    HashesOf(SortedByTime(Selected(store, WalkHashes(walk), dateBefore)))
  }

  /** The body of the try block for one hash. */
  method ReadCandidate(store: Store, objectHash: string, dateBefore: int) returns (c: Option<int>)
    ensures c == Candidate(store, objectHash, dateBefore)
  {
    if objectHash !in store {
      return None;
    }
    var objectData := store[objectHash];
    if !("commit" <= objectData.header) {
      return None;
    }
    var text := FullText(objectData);
    if text.None? {
      return None;
    }
    var parsed := ParseCommitObject(text.value);
    if parsed.Err? || parsed.value.authorTime.None? {
      return None;
    }
    if parsed.value.authorTime.value <= dateBefore {
      return parsed.value.authorTime;
    }
    return None;
  }

  method GetAllCommits(store: Store, walk: seq<(string, string)>, dateBefore: int) returns (hashes: seq<string>)
    ensures hashes == AllCommits(store, walk, dateBefore)
  {
    ghost var walked := WalkHashes(walk);
    var commits: seq<Stamped> := [];
    var i := 0;
    while i < |walk|
      invariant 0 <= i <= |walk|
      invariant commits == Selected(store, walked[..i], dateBefore)
    {
      var (root, filename) := walk[i];
      var objectHash := Basename(root) + filename;
      assert walked[i] == objectHash;
      var authorTime := ReadCandidate(store, objectHash, dateBefore);
      SelectedStep(store, walked, i, dateBefore);
      if authorTime.Some? {
        commits := commits + [(objectHash, authorTime.value)];
      }
      i := i + 1;
    }
    assert walked[..i] == walked;
    var a := new Stamped[|commits|](k requires 0 <= k < |commits| => commits[k]);
    assert a[..] == commits;
    SortByTime(a);
    hashes := HashesOf(a[..]);
  }

  lemma SelectedStep(store: Store, hashes: seq<string>, i: nat, dateBefore: int)
    requires i < |hashes|
    ensures Selected(store, hashes[..i + 1], dateBefore) == Selected(store, hashes[..i], dateBefore)
      + match Candidate(store, hashes[i], dateBefore) case None => [] case Some(t) => [(hashes[i], t)]
  {
    assert hashes[..i + 1][..i] == hashes[..i];
  }

  /** The collected pairs are exactly the walked hashes that are kept, each with its author time. */
  lemma {:induction false} SelectedMembership(store: Store, hashes: seq<string>, dateBefore: int, h: string, t: int)
    ensures (h, t) in Selected(store, hashes, dateBefore) <==> h in hashes && Candidate(store, h, dateBefore) == Some(t)
    decreases |hashes|
  {
    if hashes != [] {
      var init := hashes[..|hashes| - 1];
      SelectedMembership(store, init, dateBefore, h, t);
      assert hashes == init + [hashes[|hashes| - 1]];
    }
  }

  /** A hash is returned exactly when the walk meets it and it is a readable
      commit whose author time is at most the date. */
  lemma AllCommitsMembership(store: Store, walk: seq<(string, string)>, dateBefore: int, h: string)
    ensures h in AllCommits(store, walk, dateBefore) <==> h in WalkHashes(walk) && Candidate(store, h, dateBefore).Some?
  {
    var selected := Selected(store, WalkHashes(walk), dateBefore);
    var sorted := SortedByTime(selected);
    SortedByTimePermutation(selected);
    if h in AllCommits(store, walk, dateBefore) {
      var k :| 0 <= k < |sorted| && sorted[k].0 == h;
      assert sorted[k] in multiset(selected);
      SelectedMembership(store, WalkHashes(walk), dateBefore, h, sorted[k].1);
    }
    if h in WalkHashes(walk) && Candidate(store, h, dateBefore).Some? {
      var t := Candidate(store, h, dateBefore).value;
      SelectedMembership(store, WalkHashes(walk), dateBefore, h, t);
      assert (h, t) in multiset(sorted);
      var k :| 0 <= k < |sorted| && sorted[k] == (h, t);
      assert AllCommits(store, walk, dateBefore)[k] == h;
    }
  }

  /** The result runs from the earliest author time to the latest. */
  lemma AllCommitsEarliestFirst(store: Store, walk: seq<(string, string)>, dateBefore: int, i: nat, j: nat)
    requires i < j < |AllCommits(store, walk, dateBefore)|
    ensures var r := AllCommits(store, walk, dateBefore);
      Candidate(store, r[i], dateBefore).Some? && Candidate(store, r[j], dateBefore).Some?
      && Candidate(store, r[i], dateBefore).value <= Candidate(store, r[j], dateBefore).value
  {
    var selected := Selected(store, WalkHashes(walk), dateBefore);
    var sorted := SortedByTime(selected);
    SortedByTimePermutation(selected);
    SortedByTimeAscending(selected);
    assert sorted[i] in multiset(selected) && sorted[j] in multiset(selected);
    SelectedMembership(store, WalkHashes(walk), dateBefore, sorted[i].0, sorted[i].1);
    SelectedMembership(store, WalkHashes(walk), dateBefore, sorted[j].0, sorted[j].1);
  }

  // ---------------------------------------------------------------------------
  // build_commit_graph

  type CommitGraph = Dict<seq<string>>

  /** The loop of build_commit_graph from graph `acc` on; here nothing is
      caught, so a missing object, an undecodable one and a parse error raise. */
  function CommitGraphFrom(acc: CommitGraph, store: Store, hashes: seq<string>): Result<CommitGraph>
    decreases |hashes|
  {
    if hashes == [] then Ok(acc)
    else
      var h := hashes[0];
      if h !in store then Err(FileNotFoundError)
      else
        match FullText(store[h])
        case None => Err(UnicodeDecodeError)
        case Some(text) =>
          match CommitSummary(text)
          case Err(e) => Err(e)
          case Ok(s) => CommitGraphFrom(Put(acc, h, s.parents), store, hashes[1..])
  }

  /** The result of build_commit_graph. */
  function CommitGraphOf(store: Store, walk: seq<(string, string)>, dateBefore: int): Result<CommitGraph> {
    CommitGraphFrom([], store, AllCommits(store, walk, dateBefore))
  }

  method BuildCommitGraph(store: Store, walk: seq<(string, string)>, dateBefore: int) returns (r: Result<CommitGraph>)
    ensures r == CommitGraphOf(store, walk, dateBefore)
  {
    var commitGraph: CommitGraph := [];
    var commitHashes := GetAllCommits(store, walk, dateBefore);
    var i := 0;
    assert commitHashes[0..] == commitHashes;
    while i < |commitHashes|
      invariant 0 <= i <= |commitHashes|
      invariant CommitGraphOf(store, walk, dateBefore) == CommitGraphFrom(commitGraph, store, commitHashes[i..])
    {
      var commitHash := commitHashes[i];
      assert commitHashes[i..][0] == commitHash && commitHashes[i..][1..] == commitHashes[i + 1..];
      if commitHash !in store {
        return Err(FileNotFoundError);
      }
      var commitData := FullText(store[commitHash]);
      if commitData.None? {
        return Err(UnicodeDecodeError);
      }
      var parsed := ParseCommitObject(commitData.value);
      if parsed.Err? {
        return Err(parsed.error);
      }
      commitGraph := Put(commitGraph, commitHash, parsed.value.parents);
      i := i + 1;
    }
    assert commitHashes[i..] == [];
    r := Ok(commitGraph);
  }

  /** The parent list of a kept commit. */
  function ParentsOfCommit(store: Store, h: string, dateBefore: int): seq<string>
    requires Candidate(store, h, dateBefore).Some?
  {
    CommitSummary(FullText(store[h]).value).value.parents
  }

  predicate AllKept(store: Store, hashes: seq<string>, dateBefore: int) {
    forall k :: 0 <= k < |hashes| ==> Candidate(store, hashes[k], dateBefore).Some?
  }

  lemma AllKeptTail(store: Store, hashes: seq<string>, dateBefore: int)
    requires hashes != [] && AllKept(store, hashes, dateBefore)
    ensures Candidate(store, hashes[0], dateBefore).Some? && AllKept(store, hashes[1..], dateBefore)
  {
    forall k | 0 <= k < |hashes[1..]| ensures Candidate(store, hashes[1..][k], dateBefore).Some? {
      assert hashes[1..][k] == hashes[k + 1];
    }
  }

  /** Over kept commits the loop of build_commit_graph never raises. */
  lemma {:induction false} CommitGraphFromOk(acc: CommitGraph, store: Store, hashes: seq<string>, dateBefore: int)
    requires AllKept(store, hashes, dateBefore)
    ensures CommitGraphFrom(acc, store, hashes).Ok?
    decreases |hashes|
  {
    if hashes != [] {
      AllKeptTail(store, hashes, dateBefore);
      var c := hashes[0];
      CommitGraphFromOk(Put(acc, c, ParentsOfCommit(store, c, dateBefore)), store, hashes[1..], dateBefore);
    }
  }

  /** Over kept commits the keys are those of `acc` and the hashes. */
  lemma {:induction false} CommitGraphFromKeys(acc: CommitGraph, store: Store, hashes: seq<string>, dateBefore: int, h: string)
    requires AllKept(store, hashes, dateBefore) && CommitGraphFrom(acc, store, hashes).Ok?
    ensures h in Keys(CommitGraphFrom(acc, store, hashes).value) <==> h in Keys(acc) || h in hashes
    decreases |hashes|
  {
    if hashes != [] {
      AllKeptTail(store, hashes, dateBefore);
      var c := hashes[0];
      CommitGraphFromKeys(Put(acc, c, ParentsOfCommit(store, c, dateBefore)), store, hashes[1..], dateBefore, h);
      assert h in hashes <==> h == c || h in hashes[1..];
    }
  }

  /** Over kept commits every hash is mapped to its parent list. */
  lemma {:induction false} CommitGraphFromLookup(acc: CommitGraph, store: Store, hashes: seq<string>, dateBefore: int, h: string)
    requires AllKept(store, hashes, dateBefore) && CommitGraphFrom(acc, store, hashes).Ok?
    requires h in hashes
    ensures Candidate(store, h, dateBefore).Some?
    ensures Lookup(CommitGraphFrom(acc, store, hashes).value, h) == Some(ParentsOfCommit(store, h, dateBefore))
    decreases |hashes|
  {
    AllKeptTail(store, hashes, dateBefore);
    var c := hashes[0];
    var next := Put(acc, c, ParentsOfCommit(store, c, dateBefore));
    if h in hashes[1..] {
      CommitGraphFromLookup(next, store, hashes[1..], dateBefore, h);
    } else {
      PutLookup(acc, c, ParentsOfCommit(store, c, dateBefore), h);
      CommitGraphFromUntouched(next, store, hashes[1..], dateBefore, h);
    }
  }

  /** A key not among the hashes keeps its entry. */
  lemma {:induction false} CommitGraphFromUntouched(acc: CommitGraph, store: Store, hashes: seq<string>, dateBefore: int, h: string)
    requires AllKept(store, hashes, dateBefore) && CommitGraphFrom(acc, store, hashes).Ok?
    requires h !in hashes
    ensures Lookup(CommitGraphFrom(acc, store, hashes).value, h) == Lookup(acc, h)
    decreases |hashes|
  {
    if hashes != [] {
      AllKeptTail(store, hashes, dateBefore);
      var c := hashes[0];
      PutLookup(acc, c, ParentsOfCommit(store, c, dateBefore), h);
      CommitGraphFromUntouched(Put(acc, c, ParentsOfCommit(store, c, dateBefore)), store, hashes[1..], dateBefore, h);
    }
  }

  /** Over kept commits the graph has one entry per hash. */
  lemma {:induction false} CommitGraphFromDistinct(acc: CommitGraph, store: Store, hashes: seq<string>, dateBefore: int)
    requires DistinctKeys(acc) && AllKept(store, hashes, dateBefore)
    ensures CommitGraphFrom(acc, store, hashes).Ok? && DistinctKeys(CommitGraphFrom(acc, store, hashes).value)
    decreases |hashes|
  {
    CommitGraphFromOk(acc, store, hashes, dateBefore);
    if hashes != [] {
      AllKeptTail(store, hashes, dateBefore);
      var c := hashes[0];
      PutDistinct(acc, c, ParentsOfCommit(store, c, dateBefore));
      CommitGraphFromDistinct(Put(acc, c, ParentsOfCommit(store, c, dateBefore)), store, hashes[1..], dateBefore);
    }
  }

  predicate Distinct(hs: seq<string>) {
    forall i, j :: 0 <= i < j < |hs| ==> hs[i] != hs[j]
  }

  /** Hashes met once each, none of them a key yet, become keys in the order met. */
  lemma {:induction false} CommitGraphFromKeyOrder(acc: CommitGraph, store: Store, hashes: seq<string>, dateBefore: int)
    requires AllKept(store, hashes, dateBefore) && Distinct(hashes)
    requires forall k :: 0 <= k < |hashes| ==> hashes[k] !in Keys(acc)
    ensures CommitGraphFrom(acc, store, hashes).Ok? && Keys(CommitGraphFrom(acc, store, hashes).value) == Keys(acc) + hashes
    decreases |hashes|
  {
    CommitGraphFromOk(acc, store, hashes, dateBefore);
    if hashes != [] {
      AllKeptTail(store, hashes, dateBefore);
      var c := hashes[0];
      var next := Put(acc, c, ParentsOfCommit(store, c, dateBefore));
      assert Keys(next) == Keys(acc) + [c];
      forall k | 0 <= k < |hashes[1..]| ensures hashes[1..][k] !in Keys(next) {
        assert hashes[1..][k] == hashes[k + 1] != hashes[0];
      }
      CommitGraphFromKeyOrder(next, store, hashes[1..], dateBefore);
      assert Keys(acc) + [c] + hashes[1..] == Keys(acc) + hashes;
    }
  }

  /** Hashes in ascending order of author time. */
  predicate TimesAscending(store: Store, hs: seq<string>, dateBefore: int) {
    AllKept(store, hs, dateBefore)
    && forall i, j :: 0 <= i < j < |hs| ==> Candidate(store, hs[i], dateBefore).value <= Candidate(store, hs[j], dateBefore).value
  }

  /** Every hash of `xs` is no later than every hash of `ys`. */
  predicate TimesBelow(store: Store, xs: seq<string>, ys: seq<string>, dateBefore: int) {
    AllKept(store, xs, dateBefore) && AllKept(store, ys, dateBefore)
    && forall i, j :: 0 <= i < |xs| && 0 <= j < |ys| ==> Candidate(store, xs[i], dateBefore).value <= Candidate(store, ys[j], dateBefore).value
  }

  lemma AscendingTail(store: Store, hs: seq<string>, dateBefore: int)
    requires hs != [] && TimesAscending(store, hs, dateBefore)
    ensures TimesAscending(store, hs[1..], dateBefore)
    ensures TimesBelow(store, [hs[0]], hs[1..], dateBefore)
  {
    assert forall k :: 0 <= k < |hs[1..]| ==> hs[1..][k] == hs[k + 1];
  }

  lemma BelowTail(store: Store, xs: seq<string>, ys: seq<string>, dateBefore: int)
    requires ys != [] && TimesBelow(store, xs, ys, dateBefore)
    ensures TimesBelow(store, xs, ys[1..], dateBefore)
    ensures TimesBelow(store, xs, [ys[0]], dateBefore)
  {
    assert forall k :: 0 <= k < |ys[1..]| ==> ys[1..][k] == ys[k + 1];
  }

  lemma AscendingAppend(store: Store, xs: seq<string>, c: string, dateBefore: int)
    requires TimesAscending(store, xs, dateBefore) && TimesBelow(store, xs, [c], dateBefore)
    ensures TimesAscending(store, xs + [c], dateBefore)
  {
    assert forall k :: 0 <= k < |xs| ==> (xs + [c])[k] == xs[k];
  }

  lemma BelowAppend(store: Store, xs: seq<string>, c: string, ys: seq<string>, dateBefore: int)
    requires TimesBelow(store, xs, ys, dateBefore) && TimesBelow(store, [c], ys, dateBefore)
    ensures TimesBelow(store, xs + [c], ys, dateBefore)
  {
    assert forall k :: 0 <= k < |xs| ==> (xs + [c])[k] == xs[k];
  }

  /** Hashes in ascending order of time, none earlier than a key already
      present, keep the keys in ascending order of time. */
  lemma {:induction false} CommitGraphFromAscending(acc: CommitGraph, store: Store, hashes: seq<string>, dateBefore: int)
    requires TimesAscending(store, Keys(acc), dateBefore) && TimesAscending(store, hashes, dateBefore)
    requires TimesBelow(store, Keys(acc), hashes, dateBefore)
    ensures CommitGraphFrom(acc, store, hashes).Ok? && TimesAscending(store, Keys(CommitGraphFrom(acc, store, hashes).value), dateBefore)
    decreases |hashes|
  {
    CommitGraphFromOk(acc, store, hashes, dateBefore);
    if hashes != [] {
      AllKeptTail(store, hashes, dateBefore);
      var c := hashes[0];
      var next := Put(acc, c, ParentsOfCommit(store, c, dateBefore));
      AscendingTail(store, hashes, dateBefore);
      BelowTail(store, Keys(acc), hashes, dateBefore);
      if c !in Keys(acc) {
        AscendingAppend(store, Keys(acc), c, dateBefore);
        BelowAppend(store, Keys(acc), c, hashes[1..], dateBefore);
      }
      CommitGraphFromAscending(next, store, hashes[1..], dateBefore);
    }
  }

  /** Each walked hash is collected at most once, so no hash is returned twice. */
  lemma {:induction false} SelectedDistinct(store: Store, hashes: seq<string>, dateBefore: int)
    requires Distinct(hashes)
    ensures DistinctHashes(Selected(store, hashes, dateBefore))
    decreases |hashes|
  {
    if hashes != [] {
      var init := hashes[..|hashes| - 1];
      var last := hashes[|hashes| - 1];
      var prev := Selected(store, init, dateBefore);
      SelectedDistinct(store, init, dateBefore);
      forall k | 0 <= k < |prev| ensures prev[k].0 != last {
        assert prev[k] in prev;
        SelectedMembership(store, init, dateBefore, prev[k].0, prev[k].1);
        var m :| 0 <= m < |init| && init[m] == prev[k].0;
        assert hashes[m] == init[m];
      }
    }
  }

  /** build_commit_graph always succeeds. Its keys are the hashes of
      get_all_commits, each mapped to the parents of its `parent` lines; there
      is one entry per hash, and when the walk meets each hash once the keys
      come in the order get_all_commits returns them. */
  lemma CommitGraphEntries(store: Store, walk: seq<(string, string)>, dateBefore: int, h: string)
    ensures CommitGraphOf(store, walk, dateBefore).Ok?
    ensures var g := CommitGraphOf(store, walk, dateBefore).value;
      (h in Keys(g) <==> h in AllCommits(store, walk, dateBefore))
      && (h in Keys(g) ==> Candidate(store, h, dateBefore).Some? && Lookup(g, h) == Some(ParentsOfCommit(store, h, dateBefore)))
    ensures DistinctKeys(CommitGraphOf(store, walk, dateBefore).value)
    ensures Distinct(WalkHashes(walk)) ==> Keys(CommitGraphOf(store, walk, dateBefore).value) == AllCommits(store, walk, dateBefore)
  {
    var hashes := AllCommits(store, walk, dateBefore);
    AllCommitsKept(store, walk, dateBefore);
    CommitGraphFromOk([], store, hashes, dateBefore);
    assert Keys<seq<string>>([]) == [];
    CommitGraphFromKeys([], store, hashes, dateBefore, h);
    if h in hashes {
      CommitGraphFromLookup([], store, hashes, dateBefore, h);
    }
    CommitGraphFromDistinct([], store, hashes, dateBefore);
    if Distinct(WalkHashes(walk)) {
      var selected := Selected(store, WalkHashes(walk), dateBefore);
      SelectedDistinct(store, WalkHashes(walk), dateBefore);
      SortedByTimeDistinct(selected);
      CommitGraphFromKeyOrder([], store, hashes, dateBefore);
    }
  }

  lemma AllCommitsKept(store: Store, walk: seq<(string, string)>, dateBefore: int)
    ensures AllKept(store, AllCommits(store, walk, dateBefore), dateBefore)
  {
    var hashes := AllCommits(store, walk, dateBefore);
    forall k | 0 <= k < |hashes| ensures Candidate(store, hashes[k], dateBefore).Some? {
      AllCommitsMembership(store, walk, dateBefore, hashes[k]);
    }
  }

  /** generate_plantuml draws from early to late commits: the graph's keys
      ascend by author time, whether or not the walk meets a hash twice. */
  lemma CommitGraphEarliestFirst(store: Store, walk: seq<(string, string)>, dateBefore: int)
    ensures CommitGraphOf(store, walk, dateBefore).Ok?
    ensures TimesAscending(store, Keys(CommitGraphOf(store, walk, dateBefore).value), dateBefore)
  {
    var hashes := AllCommits(store, walk, dateBefore);
    AllCommitsKept(store, walk, dateBefore);
    forall i, j | 0 <= i < j < |hashes|
      ensures Candidate(store, hashes[i], dateBefore).value <= Candidate(store, hashes[j], dateBefore).value
    {
      AllCommitsEarliestFirst(store, walk, dateBefore, i, j);
    }
    assert Keys<seq<string>>([]) == [];
    CommitGraphFromAscending([], store, hashes, dateBefore);
  }

  // ---------------------------------------------------------------------------
  // generate_plantuml

  /** The (parent, commit) pairs in the order the two loops visit them. */
  function Edges(graph: CommitGraph): seq<(string, string)> {
    if graph == [] then []
    else
      var last := graph[|graph| - 1];
      Edges(graph[..|graph| - 1]) + ParentEdges(last.0, last.1)
  }

  function ParentEdges(commit: string, parents: seq<string>): (r: seq<(string, string)>)
    ensures |r| == |parents| && forall k :: 0 <= k < |parents| ==> r[k] == (parents[k], commit)
  {
    seq(|parents|, k requires 0 <= k < |parents| => (parents[k], commit))
  }

  /** The statement of an edge drawn with counter value `n`: the parent is
      labelled with `n` and the commit with `n + 1`. */
  function EdgeStatement(parent: string, commit: string, n: nat): string {
    "\"" + parent + " (" + NatToDecimal(n) + ")\" --> \"" + commit + " (" + NatToDecimal(n + 1) + ")\""
  }

  /** The statements of a list of edges, the counter starting at 1. */
  function Statements(edges: seq<(string, string)>): (r: seq<string>)
    ensures |r| == |edges|
  {
    seq(|edges|, k requires 0 <= k < |edges| => EdgeStatement(edges[k].0, edges[k].1, k + 1))
  }

  function PlantUmlLines(graph: CommitGraph): seq<string> {
    ["@startuml"] + Statements(Edges(graph)) + ["@enduml"]
  }

  method GeneratePlantUml(commitGraph: CommitGraph) returns (text: string)
    ensures text == Join(PlantUmlLines(commitGraph), '\n')
  {
    var plantumlLines := ["@startuml"];
    var i := 1;
    ghost var drawn: seq<(string, string)> := [];
    var j := 0;
    while j < |commitGraph|
      invariant 0 <= j <= |commitGraph|
      invariant drawn == Edges(commitGraph[..j])
      invariant i == |drawn| + 1
      invariant plantumlLines == ["@startuml"] + Statements(drawn)
    {
      var (commit, parents) := commitGraph[j];
      assert commitGraph[..j + 1][..j] == commitGraph[..j];
      if |parents| > 0 {
        var k := 0;
        while k < |parents|
          invariant 0 <= k <= |parents|
          invariant drawn == Edges(commitGraph[..j]) + ParentEdges(commit, parents[..k])
          invariant i == |drawn| + 1
          invariant plantumlLines == ["@startuml"] + Statements(drawn)
        {
          StatementsAppend(drawn, (parents[k], commit));
          plantumlLines := plantumlLines + [EdgeStatement(parents[k], commit, i)];
          i := i + 1;
          drawn := drawn + [(parents[k], commit)];
          assert parents[..k + 1] == parents[..k] + [parents[k]];
          k := k + 1;
        }
        assert parents[..k] == parents;
      } else {
        assert ParentEdges(commit, parents) == [];
      }
      j := j + 1;
    }
    assert commitGraph[..j] == commitGraph;
    plantumlLines := plantumlLines + ["@enduml"];
    text := Join(plantumlLines, '\n');
  }

  lemma StatementsAppend(edges: seq<(string, string)>, e: (string, string))
    ensures Statements(edges + [e]) == Statements(edges) + [EdgeStatement(e.0, e.1, |edges| + 1)]
  {
  }

  /** Some entry of the graph is `commit` with `parent` among its parents. */
  predicate HasParent(graph: CommitGraph, parent: string, commit: string) {
    exists j :: 0 <= j < |graph| && graph[j].0 == commit && parent in graph[j].1
  }

  /** An edge is drawn exactly for each parent of each entry, from the parent to the commit. */
  lemma {:induction false} EdgesMembership(graph: CommitGraph, parent: string, commit: string)
    ensures (parent, commit) in Edges(graph) <==> HasParent(graph, parent, commit)
    decreases |graph|
  {
    if graph != [] {
      var n := |graph| - 1;
      EdgesMembership(graph[..n], parent, commit);
      ParentEdgesMembership(graph[n].0, graph[n].1, parent, commit);
      HasParentLast(graph, parent, commit);
    }
  }

  lemma ParentEdgesMembership(c: string, ps: seq<string>, parent: string, commit: string)
    ensures (parent, commit) in ParentEdges(c, ps) <==> commit == c && parent in ps
  {
    var pe := ParentEdges(c, ps);
    if (parent, commit) in pe {
      var k :| 0 <= k < |pe| && pe[k] == (parent, commit);
      assert ps[k] == parent;
    }
    if parent in ps && commit == c {
      var k :| 0 <= k < |ps| && ps[k] == parent;
      assert pe[k] == (parent, commit);
    }
  }

  lemma HasParentLast(graph: CommitGraph, parent: string, commit: string)
    requires graph != []
    ensures HasParent(graph, parent, commit) <==>
      HasParent(graph[..|graph| - 1], parent, commit) || (graph[|graph| - 1].0 == commit && parent in graph[|graph| - 1].1)
  {
    var n := |graph| - 1;
    if HasParent(graph[..n], parent, commit) {
      var j :| 0 <= j < n && graph[..n][j].0 == commit && parent in graph[..n][j].1;
      assert graph[j] == graph[..n][j];
    }
    if HasParent(graph, parent, commit) {
      var j :| 0 <= j < |graph| && graph[j].0 == commit && parent in graph[j].1;
      if j < n {
        assert graph[..n][j] == graph[j];
      }
    }
  }

  /** Σ |parents| over the entries. */
  function ParentTotal(graph: CommitGraph): nat {
    if graph == [] then 0 else ParentTotal(graph[..|graph| - 1]) + |graph[|graph| - 1].1|
  }

  /** The text has one statement per parent of every entry, between @startuml and
      @enduml, the k-th statement (from 0) using the labels numbered k + 1 and k + 2. */
  lemma {:induction false} PlantUmlShape(graph: CommitGraph)
    ensures |PlantUmlLines(graph)| == 2 + ParentTotal(graph)
    ensures PlantUmlLines(graph)[0] == "@startuml" && PlantUmlLines(graph)[1 + ParentTotal(graph)] == "@enduml"
    ensures forall k :: 0 <= k < ParentTotal(graph) ==>
      PlantUmlLines(graph)[k + 1] == EdgeStatement(Edges(graph)[k].0, Edges(graph)[k].1, k + 1)
    decreases |graph|
  {
    EdgesLength(graph);
  }

  lemma {:induction false} EdgesLength(graph: CommitGraph)
    ensures |Edges(graph)| == ParentTotal(graph)
    decreases |graph|
  {
    if graph != [] {
      EdgesLength(graph[..|graph| - 1]);
    }
  }

  /** Splitting the text at newlines gives back its lines, when no hash holds a newline. */
  lemma PlantUmlTextLines(graph: CommitGraph)
    requires forall j :: 0 <= j < |graph| ==> '\n' !in graph[j].0 && forall k :: 0 <= k < |graph[j].1| ==> '\n' !in graph[j].1[k]
    ensures SplitOn(Join(PlantUmlLines(graph), '\n'), '\n') == PlantUmlLines(graph)
  {
    var lines := PlantUmlLines(graph);
    var edges := Edges(graph);
    forall l | 0 <= l < |lines| ensures '\n' !in lines[l] {
      if 0 < l < |lines| - 1 {
        var e := edges[l - 1];
        EdgesMembership(graph, e.0, e.1);
        assert e in edges;
        var j :| 0 <= j < |graph| && graph[j].0 == e.1 && e.0 in graph[j].1;
        var k :| 0 <= k < |graph[j].1| && graph[j].1[k] == e.0;
        NoNewlineStatement(e.0, e.1, l);
      }
    }
    SplitOnJoin(lines, '\n');
  }

  lemma NoNewlineStatement(parent: string, commit: string, n: nat)
    requires '\n' !in parent && '\n' !in commit
    ensures '\n' !in EdgeStatement(parent, commit, n)
  {
    var a := NatToDecimal(n);
    var b := NatToDecimal(n + 1);
    assert '\n' !in a && '\n' !in b;
  }
}
