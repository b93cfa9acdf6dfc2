/** test.py: read a commit object by its hash, parse its lines into a record,
    resolve HEAD to a commit hash and walk from it along the `parent` field,
    keeping the commits whose committer time is not before a cutoff. Dates are
    integer timestamps in seconds, the cutoff already in UTC. The files of
    `.git` other than the objects are a map from their path below `.git` to
    their text. */
module CommitWalk {
  import opened PyText
  import opened ObjectStore

  // ---------------------------------------------------------------------------
  // parse_commit_data

  /** The dict parse_commit_data builds: the hash it was given, and each field
      a line set, None where no line set it. */
  datatype CommitRecord = CommitRecord(
    commitHash: string,
    parent: Option<string>,
    author: Option<string>,
    committer: Option<string>,
    committerEmail: Option<string>,
    committerTimestamp: Option<int>,
    tree: Option<string>,
    message: Option<string>)

  /** `{'commit_hash': commit_hash}`: the record before any line. */
  function Fresh(commitHash: string): CommitRecord {
    CommitRecord(commitHash, None, None, None, None, None, None, None)
  }

  predicate IsParentLine(line: string) { "parent" <= line }
  predicate IsAuthorLine(line: string) { "author" <= line }
  predicate IsCommitterLine(line: string) { "committer" <= line }
  predicate IsTreeLine(line: string) { "tree" <= line }
  predicate IsMessageLine(line: string) { "message" <= line }

  /** The value of a `message` line as intended, which the parser does not
      compute: every word after the key, joined by single spaces; IndexError,
      as written, without any. */
  function MessageOf(line: string): Result<string> {
    var words := Tokens(line);
    if |words| < 2 then Err(IndexError) else Ok(Join(words[1..], ' '))
  }

  /** The effect of one line on the record: the first matching prefix, in the
      order parent, author, committer, tree, message, decides it; any other
      line, the empty one included, leaves the record as it is. A committer
      line takes its second and third words as name and e-mail and its next
      to last word as the time; fewer than three words raise IndexError. A
      message line, like the others, keeps only its second word. */
  function LineStep(acc: CommitRecord, line: string): (r: Result<CommitRecord>)
    ensures r.Ok? ==> r.value.commitHash == acc.commitHash
  {
    var words := Tokens(line);
    if IsParentLine(line) then
      if |words| < 2 then Err(IndexError) else Ok(acc.(parent := Some(words[1])))
    else if IsAuthorLine(line) then
      if |words| < 2 then Err(IndexError) else Ok(acc.(author := Some(words[1])))
    else if IsCommitterLine(line) then
      if |words| < 3 then Err(IndexError)
      else
        match ParseInt(words[|words| - 2])
        case None => Err(ValueError)
        case Some(t) =>
          Ok(acc.(committer := Some(words[1]), committerEmail := Some(words[2]), committerTimestamp := Some(t)))
    else if IsTreeLine(line) then
      if |words| < 2 then Err(IndexError) else Ok(acc.(tree := Some(words[1])))
    else if IsMessageLine(line) then
      if |words| < 2 then Err(IndexError) else Ok(acc.(message := Some(words[1])))
    else Ok(acc)
  }

  /** The loop of parse_commit_data from `acc` on: every line is looked at,
      those after the first empty line too; the first exception ends it. */
  function Collect(acc: CommitRecord, lines: seq<string>): (r: Result<CommitRecord>)
    ensures r.Ok? ==> r.value.commitHash == acc.commitHash
    decreases |lines|
  {
    if lines == [] then Ok(acc)
    else
      match LineStep(acc, lines[0])
      case Err(e) => Err(e)
      case Ok(next) => Collect(next, lines[1..])
  }

  /** What parse_commit_data returns for the decoded text. */
  function CommitData(text: string, commitHash: string): Result<CommitRecord> {
    Collect(Fresh(commitHash), SplitOn(text, '\n'))
  }

  method ParseCommitData(text: string, commitHash: string) returns (r: Result<CommitRecord>)
    ensures r == CommitData(text, commitHash)
  {
    var commitData := Fresh(commitHash);
    var lines := SplitOn(text, '\n');
    var i := 0;
    assert lines[0..] == lines;
    while i < |lines|
      invariant 0 <= i <= |lines|
      invariant CommitData(text, commitHash) == Collect(commitData, lines[i..])
    {
      var line := lines[i];
      assert lines[i..][0] == line && lines[i..][1..] == lines[i + 1..];
      var words := Tokens(line);
      if IsParentLine(line) {
        if |words| < 2 {
          return Err(IndexError);
        }
        commitData := commitData.(parent := Some(words[1]));
      } else if IsAuthorLine(line) {
        if |words| < 2 {
          return Err(IndexError);
        }
        commitData := commitData.(author := Some(words[1]));
      } else if IsCommitterLine(line) {
        if |words| < 3 {
          return Err(IndexError);
        }
        var t := ParseInt(words[|words| - 2]);
        if t.None? {
          return Err(ValueError);
        }
        commitData := commitData.(committer := Some(words[1]), committerEmail := Some(words[2]), committerTimestamp := Some(t.value));
      } else if IsTreeLine(line) {
        if |words| < 2 {
          return Err(IndexError);
        }
        commitData := commitData.(tree := Some(words[1]));
      } else if IsMessageLine(line) {
        if |words| < 2 {
          return Err(IndexError);
        }
        commitData := commitData.(message := Some(words[1]));
      }
      i := i + 1;
    }
    r := Ok(commitData);
  }

  /** A step sets the parent from a `parent` line and keeps it otherwise. */
  lemma StepParent(acc: CommitRecord, line: string)
    requires LineStep(acc, line).Ok?
    ensures IsParentLine(line) ==> LineStep(acc, line).value.parent == Some(Tokens(line)[1])
    ensures !IsParentLine(line) ==> LineStep(acc, line).value.parent == acc.parent
  {
  }

  /** No line from index `j` on is a `parent` line. */
  predicate NoParentFrom(lines: seq<string>, j: nat) {
    forall k :: j <= k < |lines| ==> !IsParentLine(lines[k])
  }

  lemma NoParentFromTail(lines: seq<string>, j: nat)
    requires lines != [] && 1 <= j && NoParentFrom(lines, j)
    ensures NoParentFrom(lines[1..], j - 1)
  {
    forall k | j - 1 <= k < |lines[1..]| ensures !IsParentLine(lines[1..][k]) {
      assert lines[1..][k] == lines[k + 1];
    }
  }

  /** Without a `parent` line the parent stays as it was. */
  lemma {:induction false} ParentKept(acc: CommitRecord, lines: seq<string>)
    requires Collect(acc, lines).Ok? && NoParentFrom(lines, 0)
    ensures Collect(acc, lines).value.parent == acc.parent
    decreases |lines|
  {
    if lines != [] {
      StepParent(acc, lines[0]);
      NoParentFromTail(lines, 1);
      ParentKept(LineStep(acc, lines[0]).value, lines[1..]);
    }
  }

  /** A repeated key overwrites: the parent is the second word of the last
      `parent` line, wherever it stands, after the first empty line included. */
  lemma {:induction false} LastParentWins(acc: CommitRecord, lines: seq<string>, j: nat)
    requires Collect(acc, lines).Ok?
    requires j < |lines| && IsParentLine(lines[j]) && NoParentFrom(lines, j + 1)
    ensures |Tokens(lines[j])| >= 2
    ensures Collect(acc, lines).value.parent == Some(Tokens(lines[j])[1])
    decreases |lines|
  {
    var next := LineStep(acc, lines[0]).value;
    NoParentFromTail(lines, j + 1);
    if j == 0 {
      StepParent(acc, lines[0]);
      ParentKept(next, lines[1..]);
    } else {
      assert lines[1..][j - 1] == lines[j];
      LastParentWins(next, lines[1..], j - 1);
    }
  }

  /** A line made of a key word and then words, separated by single spaces. */
  function KeyLine(key: string, ws: seq<string>): (line: string)
    ensures key <= line
  {
    key + " " + Join(ws, ' ')
  }

  /** The committer fields are positional: on "committer <w0> <w1> ... <wn>"
      the name is <w0>, the e-mail field holds <w1> and the time is the
      integer of the next to last word. With a name of two words, as in
      "committer John Doe <john@example.com> 1625827216 +0000", the e-mail
      field holds the last name. */
  lemma CommitterPositional(acc: CommitRecord, ws: seq<string>, t: int)
    requires |ws| >= 2 && forall i :: 0 <= i < |ws| ==> ws[i] != [] && NoSpace(ws[i])
    requires ParseInt(ws[|ws| - 2]) == Some(t)
    ensures LineStep(acc, KeyLine("committer", ws)) ==
      Ok(acc.(committer := Some(ws[0]), committerEmail := Some(ws[1]), committerTimestamp := Some(t)))
  {
    var line := KeyLine("committer", ws);
    KeyIsGraphic("committer");
    TokensAfterKey("committer", ws);
    assert !IsParentLine(line) && !IsAuthorLine(line) by {
      assert line[0] == "committer"[0];
    }
    var words := ["committer"] + ws;
    assert words[1] == ws[0] && words[2] == ws[1] && words[|words| - 2] == ws[|ws| - 2];
  }

  lemma KeyIsGraphic(key: string)
    requires key in ["message", "committer", "ref:"]
    ensures IsGraphic(key)
  {
  }

  /** A key word and the words after it split back into those words. */
  lemma TokensAfterKey(key: string, ws: seq<string>)
    requires key != [] && IsGraphic(key)
    requires forall i :: 0 <= i < |ws| ==> ws[i] != [] && NoSpace(ws[i])
    ensures Tokens(KeyLine(key, ws)) == [key] + ws
  {
    var rest := Join(ws, ' ');
    GraphicNoSpace(key);
    assert KeyLine(key, ws) == key + ([' '] + rest);
    TokensWordThen(key, [' '] + rest);
    TokensSpaceFirst(' ', rest);
    TokensOfJoin(ws);
  }

  /** As written, a `message` line keeps only its first word: the message of
      test.py's own sample line "message Initial commit" comes out as
      "Initial", shorter than the text after the key. */
  lemma MessageAsWrittenFirstWord(acc: CommitRecord, ws: seq<string>)
    requires |ws| >= 2 && forall i :: 0 <= i < |ws| ==> ws[i] != [] && NoSpace(ws[i])
    ensures LineStep(acc, KeyLine("message", ws)) == Ok(acc.(message := Some(ws[0])))
    ensures |ws[0]| < |Join(ws, ' ')|
  {
    var line := KeyLine("message", ws);
    KeyIsGraphic("message");
    TokensAfterKey("message", ws);
    assert !IsParentLine(line) && !IsAuthorLine(line) && !IsCommitterLine(line) && !IsTreeLine(line) by {
      assert line[0] == "message"[0];
    }
  }

  /** As intended, the message is the whole text after the key. */
  lemma MessageKeepsWords(ws: seq<string>)
    requires ws != [] && forall i :: 0 <= i < |ws| ==> ws[i] != [] && NoSpace(ws[i])
    ensures MessageOf(KeyLine("message", ws)) == Ok(Join(ws, ' '))
  {
    KeyIsGraphic("message");
    TokensAfterKey("message", ws);
    assert (["message"] + ws)[1..] == ws;
  }

  // ---------------------------------------------------------------------------
  // read_commit

  /** read_commit: a hash shorter than 40 characters raises ValueError; the
      object lives at `<hash[:2]>/<hash[2:]>`, and a missing one raises
      FileNotFoundError; the whole decompressed object, header included, is
      decoded and parsed. */
  function ReadCommit(store: Store, commitHash: string): (r: Result<CommitRecord>)
    ensures |commitHash| < 40 ==> r == Err(ValueError)
    ensures |commitHash| >= 40 && commitHash !in store ==> r == Err(FileNotFoundError)
    ensures r.Ok? ==> commitHash in store && r.value.commitHash == commitHash
  {
    if |commitHash| < 40 then Err(ValueError)
    else
      var (objectDir, objectFile) := ObjectPath(commitHash);
      if objectDir + objectFile !in store then Err(FileNotFoundError)
      else
        match FullText(store[objectDir + objectFile])
        case None => Err(UnicodeDecodeError)
        case Some(text) => CommitData(text, commitHash)
  }

  method ReadCommitObject(store: Store, commitHash: string) returns (r: Result<CommitRecord>)
    ensures r == ReadCommit(store, commitHash)
  {
    if |commitHash| < 40 {
      return Err(ValueError);
    }
    var (objectDir, objectFile) := ObjectPath(commitHash);
    if objectDir + objectFile !in store {
      return Err(FileNotFoundError);
    }
    var decoded := FullText(store[objectDir + objectFile]);
    if decoded.None? {
      return Err(UnicodeDecodeError);
    }
    r := ParseCommitData(decoded.value, commitHash);
  }

  /** Every line is looked at, a message body line too: one whose first word
      begins with "tree", as in "tree-shake the bundle", sets the tree field
      to its second word. */
  lemma TreePrefixedWordSetsTree(acc: CommitRecord, key: string, ws: seq<string>)
    requires "tree" <= key && IsGraphic(key)
    requires ws != [] && forall i :: 0 <= i < |ws| ==> ws[i] != [] && NoSpace(ws[i])
    ensures LineStep(acc, KeyLine(key, ws)) == Ok(acc.(tree := Some(ws[0])))
  {
    var line := KeyLine(key, ws);
    TokensAfterKey(key, ws);
    assert !IsParentLine(line) && !IsAuthorLine(line) && !IsCommitterLine(line) by {
      assert line[0] == key[0] == 't';
    }
    assert "tree" <= line;
  }

  /** The header line glues onto the first payload line, which therefore
      never sets a field: for a real object that is the tree line. */
  lemma ReadCommitSkipsFirstLine(store: Store, commitHash: string, header: string, text: string)
    requires |commitHash| >= 40 && commitHash in store && store[commitHash] == Object(header, Utf8(text))
    requires "commit " <= header && '\n' !in header
    ensures ReadCommit(store, commitHash) == Collect(Fresh(commitHash), SplitOn(text, '\n')[1..])
  {
    ReadCommitText(store, commitHash);
    var rest := SplitOn(text, '\n')[1..];
    var first := header + ['\0'] + SplitOn(text, '\n')[0];
    assert SplitOn(header + ['\0'] + text, '\n') == [first] + rest by {
      SplitOnPrefix(header + ['\0'], text, '\n');
    }
    assert first[..7] == header[..7];
    KeyFreeLine(Fresh(commitHash), first);
    CollectSkip(Fresh(commitHash), first, rest);
  }

  /** A stored object whose text decodes is parsed from that text. */
  lemma ReadCommitText(store: Store, commitHash: string)
    requires |commitHash| >= 40 && commitHash in store && FullText(store[commitHash]).Some?
    ensures ReadCommit(store, commitHash) == CommitData(FullText(store[commitHash]).value, commitHash)
  {
    var (objectDir, objectFile) := ObjectPath(commitHash);
    assert objectDir + objectFile == commitHash;
  }

  /** A line starting with "commit " matches none of the prefixes. */
  lemma KeyFreeLine(acc: CommitRecord, line: string)
    requires "commit " <= line
    ensures LineStep(acc, line) == Ok(acc)
  {
    assert line[0] == 'c' && line[6] == ' ';
    assert !IsCommitterLine(line) by {
      assert "committer"[6] == 't';
    }
  }

  lemma CollectSkip(acc: CommitRecord, line: string, rest: seq<string>)
    requires LineStep(acc, line) == Ok(acc)
    ensures Collect(acc, [line] + rest) == Collect(acc, rest)
  {
    assert ([line] + rest)[0] == line && ([line] + rest)[1..] == rest;
  }

  // ---------------------------------------------------------------------------
  // HEAD and get_commit_hash_from_ref

  /** The hash HEAD names: its stripped text, or, when that starts with "ref:",
      the stripped text of the file its second word names. A missing file
      raises FileNotFoundError, "ref:" without a second word IndexError. */
  function ResolveHead(files: map<string, string>): Result<string> {
    if "HEAD" !in files then Err(FileNotFoundError)
    else
      var ref := Strip(files["HEAD"]);
      if "ref:" <= ref then
        var words := Tokens(ref);
        if |words| < 2 then Err(IndexError)
        else if words[1] !in files then Err(FileNotFoundError)
        else Ok(Strip(files[words[1]]))
      else Ok(ref)
  }

  /** A detached HEAD "<hash>\n" names that hash. */
  lemma DetachedHead(files: map<string, string>, h: string)
    requires "HEAD" in files && files["HEAD"] == h + "\n"
    requires h != [] && NoSpace(h) && !("ref:" <= h)
    ensures ResolveHead(files) == Ok(h)
  {
    assert IsSpace('\n');
    StripWord([], h, "\n");
    assert [] + h + "\n" == h + "\n";
  }

  /** A symbolic HEAD "ref: <name>\n" names the stripped content of file <name>. */
  lemma SymbolicHead(files: map<string, string>, name: string)
    requires "HEAD" in files && files["HEAD"] == "ref: " + name + "\n"
    requires name != [] && NoSpace(name)
    ensures ResolveHead(files) == if name in files then Ok(Strip(files[name])) else Err(FileNotFoundError)
  {
    var ref := "ref: " + name;
    assert IsSpace('\n');
    KeyIsGraphic("ref:");
    GraphicNoSpace("ref:");
    StripWord([], ref, "\n");
    assert [] + ref + "\n" == files["HEAD"];
    assert Join(["ref:", name], ' ') == ref;
    TokensOfJoin(["ref:", name]);
  }

  // ---------------------------------------------------------------------------
  // get_commits_after_date

  /** How the walk ends: with the kept records, with an exception, or, in the
      model only, with its step budget spent. */
  datatype Walk = Done(commits: seq<CommitRecord>) | Raised(error: PyError) | OutOfFuel

  /** `kept` ahead of the rest of a walk. */
  function Prepended(kept: seq<CommitRecord>, w: Walk): Walk {
    match w
    case Done(rest) => Done(kept + rest)
    case _ => w
  }

  /** The hash the walk moves to after a record: its parent, or "" for none. */
  function NextHash(c: CommitRecord): string {
    if c.parent.Some? then c.parent.value else ""
  }

  /** The record itself when its committer time is not before `cutoff`, else nothing. */
  function Kept(c: CommitRecord, cutoff: int): (r: seq<CommitRecord>)
    ensures r == [c] || r == []
  {
    if c.committerTimestamp.Some? && c.committerTimestamp.value >= cutoff then [c] else []
  }

  /** Reading one commit of the walk, lines 84-85 of test.py: read_commit,
      then the committer time, whose absence raises KeyError. */
  function Visit(store: Store, h: string): (r: Result<CommitRecord>)
    ensures r.Ok? ==> r.value.committerTimestamp.Some? && r.value.commitHash == h
    ensures ReadCommit(store, h).Err? ==> r == ReadCommit(store, h)
    ensures ReadCommit(store, h).Ok? && ReadCommit(store, h).value.committerTimestamp.None? ==> r == Err(KeyError)
  {
    match ReadCommit(store, h)
    case Err(e) => Err(e)
    case Ok(c) => if c.committerTimestamp.None? then Err(KeyError) else Ok(c)
  }

  /** How the walk reads a commit by its hash. The walk is stated for any
      reader; the one of test.py is `StoreReader`. */
  type Reader = string -> Result<CommitRecord>

  function StoreReader(store: Store): Reader {
    h => Visit(store, h)
  }

  /** The walk from hash `h` with at most `fuel` reads: an empty hash ends it,
      and a record whose time is not before `cutoff` is kept. */
  function WalkFrom(read: Reader, h: string, cutoff: int, fuel: nat): Walk
    decreases fuel
  {
    if h == [] then Done([])
    else if fuel == 0 then OutOfFuel
    else
      match read(h)
      case Err(e) => Raised(e)
      case Ok(c) => Prepended(Kept(c, cutoff), WalkFrom(read, NextHash(c), cutoff, fuel - 1))
  }

  /** get_commits_after_date with at most `fuel` reads. */
  function CommitsAfterDate(files: map<string, string>, store: Store, cutoff: int, fuel: nat): Walk {
    match ResolveHead(files)
    case Err(e) => Raised(e)
    case Ok(h) => WalkFrom(StoreReader(store), h, cutoff, fuel)
  }

  method GetCommitsAfterDate(files: map<string, string>, store: Store, cutoff: int, fuel: nat) returns (r: Walk)
    ensures r == CommitsAfterDate(files, store, cutoff, fuel)
  {
    var head := ResolveHead(files);
    if head.Err? {
      return Raised(head.error);
    }
    r := WalkCommits(StoreReader(store), head.value, cutoff, fuel);
  }

  /** The loop of get_commits_after_date from the commit `start` on. */
  method WalkCommits(read: Reader, start: string, cutoff: int, fuel: nat) returns (r: Walk)
    ensures r == WalkFrom(read, start, cutoff, fuel)
  {
    var commits: seq<CommitRecord> := [];
    var current := start;
    var steps := 0;
    ghost var walk := WalkFrom(read, current, cutoff, fuel);
    PrependedNothing(walk);
    while current != []
      invariant steps <= fuel
      invariant walk == Prepended(commits, WalkFrom(read, current, cutoff, fuel - steps))
      decreases fuel - steps
    {
      if steps == fuel {
        return OutOfFuel;
      }
      var commitData := read(current);
      if commitData.Err? {
        return Raised(commitData.error);
      }
      var c := commitData.value;
      PrependedStep(commits, Kept(c, cutoff), WalkFrom(read, NextHash(c), cutoff, fuel - steps - 1));
      commits := commits + Kept(c, cutoff);
      current := NextHash(c);
      steps := steps + 1;
    }
    assert commits + [] == commits;
    r := Done(commits);
  }

  lemma PrependedNothing(w: Walk)
    ensures Prepended([], w) == w
  {
    if w.Done? {
      assert [] + w.commits == w.commits;
    }
  }

  lemma PrependedStep(a: seq<CommitRecord>, b: seq<CommitRecord>, w: Walk)
    ensures Prepended(a, Prepended(b, w)) == Prepended(a + b, w)
  {
    if w.Done? {
      assert a + (b + w.commits) == a + b + w.commits;
    }
  }

  /** Every record the walk reads, in order, whatever its time: the reference
      the filtered walk is checked against. */
  function Chain(read: Reader, h: string, fuel: nat): Walk
    decreases fuel
  {
    if h == [] then Done([])
    else if fuel == 0 then OutOfFuel
    else
      match read(h)
      case Err(e) => Raised(e)
      case Ok(c) => Prepended([c], Chain(read, NextHash(c), fuel - 1))
  }

  /** The records whose committer time is not before `cutoff`, in order. */
  function Newer(cs: seq<CommitRecord>, cutoff: int): (r: seq<CommitRecord>)
    ensures forall c | c in r :: c in cs && c.committerTimestamp.Some? && c.committerTimestamp.value >= cutoff
    decreases |cs|
  {
    if cs == [] then [] else Kept(cs[0], cutoff) + Newer(cs[1..], cutoff)
  }

  lemma NewerAppend(c: CommitRecord, cs: seq<CommitRecord>, cutoff: int)
    ensures Newer([c] + cs, cutoff) == Kept(c, cutoff) + Newer(cs, cutoff)
  {
    assert ([c] + cs)[1..] == cs;
  }

  /** A record of the list whose time is not before the cutoff is kept. */
  lemma {:induction false} NewerKeeps(cs: seq<CommitRecord>, cutoff: int, c: CommitRecord)
    requires c in cs && c.committerTimestamp.Some? && c.committerTimestamp.value >= cutoff
    ensures c in Newer(cs, cutoff)
    decreases |cs|
  {
    if cs[0] != c {
      assert c in cs[1..];
      NewerKeeps(cs[1..], cutoff, c);
    }
  }

  /** A finished walk with only the records not before `cutoff`; a walk that
      raised or ran out stays as it is. */
  function Filtered(w: Walk, cutoff: int): Walk {
    match w
    case Done(cs) => Done(Newer(cs, cutoff))
    case _ => w
  }

  lemma FilteredPrepended(c: CommitRecord, w: Walk, cutoff: int)
    ensures Filtered(Prepended([c], w), cutoff) == Prepended(Kept(c, cutoff), Filtered(w, cutoff))
  {
    if w.Done? {
      NewerAppend(c, w.commits, cutoff);
    }
  }

  /** The walk keeps, in walk order (newest first), exactly the records of the
      chain whose time is not before the cutoff: older commits are skipped
      but the walk goes on past them, and it fails or runs out exactly when
      the chain does. */
  lemma {:induction false} WalkIsNewerChain(read: Reader, h: string, cutoff: int, fuel: nat)
    ensures WalkFrom(read, h, cutoff, fuel) == Filtered(Chain(read, h, fuel), cutoff)
    decreases fuel
  {
    if h != [] && fuel > 0 && read(h).Ok? {
      var c := read(h).value;
      WalkIsNewerChain(read, NextHash(c), cutoff, fuel - 1);
      FilteredPrepended(c, Chain(read, NextHash(c), fuel - 1), cutoff);
    }
  }

  /** The reader of the store gives each record the hash it was read by. */
  ghost predicate KeepsHash(read: Reader) {
    forall h :: read(h).Ok? ==> read(h).value.commitHash == h
  }

  lemma StoreReaderKeepsHash(store: Store)
    ensures KeepsHash(StoreReader(store))
  {
    forall h | StoreReader(store)(h).Ok? ensures StoreReader(store)(h).value.commitHash == h {
      assert StoreReader(store)(h) == Visit(store, h);
    }
  }

  /** The chain starts at `h`, each record's parent is the next record's hash,
      and it ends at a record without a parent. */
  lemma {:induction false} ChainLinks(read: Reader, h: string, fuel: nat)
    requires KeepsHash(read)
    requires Chain(read, h, fuel).Done? && Chain(read, h, fuel).commits != []
    ensures Chain(read, h, fuel).commits[0].commitHash == h
    ensures forall k :: 0 <= k < |Chain(read, h, fuel).commits| - 1 ==>
      Chain(read, h, fuel).commits[k].parent == Some(Chain(read, h, fuel).commits[k + 1].commitHash)
    ensures NextHash(Chain(read, h, fuel).commits[|Chain(read, h, fuel).commits| - 1]) == []
    decreases fuel
  {
    var c := read(h).value;
    var rest := Chain(read, NextHash(c), fuel - 1);
    var cs := Chain(read, h, fuel).commits;
    assert cs == [c] + rest.commits;
    if rest.commits != [] {
      ChainLinks(read, NextHash(c), fuel - 1);
      assert NextHash(c) == rest.commits[0].commitHash;
      forall k | 0 <= k < |cs| - 1
        ensures cs[k].parent == Some(cs[k + 1].commitHash)
      {
        if k > 0 {
          assert cs[k] == rest.commits[k - 1] && cs[k + 1] == rest.commits[k];
        }
      }
    }
  }

  /** A walk that ends within its budget ends the same way with any larger one. */
  lemma {:induction false} ChainFuel(read: Reader, h: string, fuel: nat, more: nat)
    requires !Chain(read, h, fuel).OutOfFuel? && fuel <= more
    ensures Chain(read, h, more) == Chain(read, h, fuel)
    decreases fuel
  {
    if h != [] && read(h).Ok? {
      ChainFuel(read, NextHash(read(h).value), fuel - 1, more - 1);
    }
  }

  lemma WalkFuel(read: Reader, h: string, cutoff: int, fuel: nat, more: nat)
    requires !WalkFrom(read, h, cutoff, fuel).OutOfFuel? && fuel <= more
    ensures WalkFrom(read, h, cutoff, more) == WalkFrom(read, h, cutoff, fuel)
  {
    WalkIsNewerChain(read, h, cutoff, fuel);
    WalkIsNewerChain(read, h, cutoff, more);
    ChainFuel(read, h, fuel, more);
  }
}
