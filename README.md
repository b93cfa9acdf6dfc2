# Git loose-object commit graphs, modelled in Dafny

The repository holds three small Python pipelines. Each one reads commit
objects straight from a repository's `.git/objects` directory and prints a
commit graph as text:

- `git_dependency_visualizer.py` does four things:
  - lists the loose objects;
  - keeps the commits whose `tree` value contains a target string;
  - maps each kept commit to the words of its `parent` value;
  - prints a Graphviz `digraph`.
- `visualizer.py` does three things:
  - keeps every commit whose author time is not after a date;
  - orders those commits by author time, with a stable sort;
  - maps each one to all of its parents and prints PlantUML edges under a running counter.
- `test.py` reads one commit by its hash into a record. It then resolves
  `HEAD`, directly or through a `ref:` line, and walks from that commit along
  the `parent` field, keeping the commits whose committer time is not before
  a cutoff.

## How the model is built

Reading files and inflating them with zlib are outside the model. A store maps
each hash to its decompressed object. The object is already divided into its
header text and its payload, and the payload is either UTF-8 text or
undecodable bytes. The directory walk is a sequence of `(root, file)` pairs.
The files of `.git` other than the objects are a map from their path below
`.git` to their text. Dates are integer timestamps.

Python exceptions are the error side of a `Result`. Python dicts whose
iteration order matters are insertion-ordered sequences of pairs (`Dicts`).

Each parsing or collecting loop of the source is a `method` with a `while`
loop. Its `ensures` ties the result to a specification function: a left fold
with an accumulator. The properties are lemmas about those functions. The
in-place stable sort is an insertion sort on an `array`, proved equal to a
stable-insertion specification, which is in turn proved ascending, a
permutation and stable.

The Python built-ins the code relies on are written out in `PyText`:

- `str.split()` and `str.split(c)`;
- `str.splitlines()`;
- `str.split(" ", 1)`;
- `in` on strings;
- `str.strip()`;
- `int()`;
- the decimal text of an f-string;
- `"\n".join`;
- `os.path.basename`.

Where the code and its description disagree, the model follows the code:

- In `test.py` a repeated `parent` line overwrites the earlier one, so the walk
  follows the LAST parent of a merge commit, not the first.
- `read_commit` decodes the whole object, header included. The first line it
  sees is therefore `"commit <size>\0tree …"`, so the object's own `tree` line
  never sets the field (`ReadCommitSkipsFirstLine`).
- Every line is looked at, the message body too. A body line that starts
  with `tree`, `parent`, `author`, `committer` or `message` sets that field
  (or raises). For example, "tree-shake the bundle" sets `tree` to "the"
  (`TreePrefixedWordSetsTree`).
- A `message` line keeps only its second word, as test.py:61 does
  (`MessageAsWrittenFirstWord`). The whole text after the key, which the
  repository's test expects, is the corrected `MessageOf` (see Findings).
  Nothing else in the model reads the message.
- `visualizer.py` does the same with its whole object
  (`FullTextSkipsFirstLine`).
- The committer fields are positional. With a two-word name the "e-mail" field
  holds the last name (`CommitterPositional`).

## Model

| member | source | states |
|---|---|---|
| PyText.Tokens | test.py:49 | `str.split()` gives only non-empty words without whitespace |
| PyText.TokensOfJoin | test.py:49 | words without whitespace, joined by single spaces, split back into the same words |
| PyText.SplitOn | test.py:44 | `split('\n')` gives at least one piece and no piece holds the separator |
| PyText.JoinSplitOn | visualizer.py:25 | joining the pieces of `split(c)` with `c` gives back the string |
| PyText.SplitOnJoin | git_dependency_visualizer.py:74 | splitting a `c.join` at `c` gives back the pieces when none holds `c` |
| PyText.SplitLinesJoin | git_dependency_visualizer.py:19 | `splitlines()` undoes a join on `'\n'` of lines without line boundaries whose last line is not empty |
| PyText.SplitOnce | git_dependency_visualizer.py:24 | `split(" ", 1)` gives two halves exactly when the line has a space; the key has no space and key, space and value rebuild the line |
| PyText.IsSubstringIff | git_dependency_visualizer.py:49 | `t in s` holds exactly when `t` occurs in `s` at some offset |
| PyText.StripWord | test.py:72 | `strip()` removes surrounding whitespace and leaves the word itself |
| PyText.ParseInt | test.py:57 | `int()` accepts only a sign or digit first, and a negative value only after a minus sign |
| PyText.ParseIntRejectsStray | visualizer.py:37 | a token with a character other than a digit or `_` after its first position, such as `1a`, makes `int()` raise ValueError |
| PyText.ParseIntNegativeDecimal | test.py:57 | `int()` reads `-` followed by decimal digits as the negative number |
| PyText.ParseIntNatToDecimal | visualizer.py:89 | `int()` reads back the decimal text the f-string prints for a counter |
| PyText.Basename | git_dependency_visualizer.py:35 | `os.path.basename` gives a suffix of the path holding no `/` |
| PyText.BasenameAfterLastSlash | git_dependency_visualizer.py:35 | the basename is the whole suffix after the last `/`: the whole path, or preceded by a `/`, and holding none |
| ObjectStore.NulIndex | git_dependency_visualizer.py:14 | the index found is the first NUL byte, or the length when there is none |
| ObjectStore.SplitHeader | git_dependency_visualizer.py:14 | the split at the first NUL succeeds exactly when a NUL is present, else ValueError; the header is NUL-free and header, NUL and payload rebuild the bytes |
| ObjectStore.SplitHeaderOfObject | git_dependency_visualizer.py:14-15 | a header and ANY payload, NULs included, are split back into themselves |
| ObjectStore.ObjectPath | test.py:21-22 | the directory is two characters and directory plus file name give back the hash |
| Dicts.Put | visualizer.py:75 | `d[k] = v` keeps the key order when `k` is a key and appends `k` otherwise |
| Dicts.PutLookup | git_dependency_visualizer.py:62 | after `d[k] = v`, `k` maps to `v` and every other key keeps its value |
| Dicts.PutDistinct | visualizer.py:75 | assignment keeps the keys of a dict distinct |
| DependencyVisualizer.ParseCommitData | git_dependency_visualizer.py:17-26 | the loop returns the fold over the `splitlines()` lines that stops at the first empty line |
| DependencyVisualizer.CollectFieldsStopsAtBlank | git_dependency_visualizer.py:21-23 | nothing after the first empty line affects the result |
| DependencyVisualizer.CollectFieldsFails | git_dependency_visualizer.py:24 | the parse fails exactly when some header line has no space, and then with ValueError |
| DependencyVisualizer.CollectFieldsLastWins | git_dependency_visualizer.py:24-25 | a repeated key holds the value of its last header line |
| DependencyVisualizer.CollectFieldsKeepsAbsent | git_dependency_visualizer.py:20-25 | a key on no header line is absent, or keeps its earlier value |
| DependencyVisualizer.SplitOnceField | git_dependency_visualizer.py:24 | a line splits at its first space only; the value keeps any further spaces |
| DependencyVisualizer.MergeKeepsLastParent | git_dependency_visualizer.py:25 | of a merge commit's two `parent` lines only the second survives |
| DependencyVisualizer.OneHeaderLine | git_dependency_visualizer.py:19-25 | a one-line payload `"<key> <value>"` parses to that one field |
| DependencyVisualizer.TwoHeaderLines | git_dependency_visualizer.py:19-25 | a two-line payload parses to both fields, the second overwriting a repeated key |
| DependencyVisualizer.ListGitObjects | git_dependency_visualizer.py:28-36 | the loop returns the hashes of the 38-character file names, in walk order |
| DependencyVisualizer.ObjectHashesMembership | git_dependency_visualizer.py:32-35 | a hash is listed exactly when some 38-character file name, after its directory's basename, yields it |
| DependencyVisualizer.ObjectHashesAppend | git_dependency_visualizer.py:32-35 | listing follows walk order: two walks in sequence list their hashes in sequence |
| DependencyVisualizer.ObjectHashesLength | git_dependency_visualizer.py:34-35 | under two-character directory names every listed hash has 40 characters |
| DependencyVisualizer.ExamineObject | git_dependency_visualizer.py:43-52 | one object: a missing one raises; a non-commit or undecodable payload is skipped; a malformed header raises; otherwise it is kept when the target is in the tree value, `""` when there is no tree |
| DependencyVisualizer.FindCommits | git_dependency_visualizer.py:38-53 | the loop returns the scan of the listed objects, the first exception ending it |
| DependencyVisualizer.ScanStep | git_dependency_visualizer.py:42-52 | the loop invariant (kept prefix, then the rest of the scan) survives one object |
| DependencyVisualizer.MatchingMembership | git_dependency_visualizer.py:42-50 | on success the result holds exactly the listed objects that pass the commit and tree tests |
| DependencyVisualizer.MatchingAppend | git_dependency_visualizer.py:42-53 | the result keeps object-list order: scanning two lists in turn concatenates their results |
| DependencyVisualizer.MatchingFails | git_dependency_visualizer.py:42-52 | the scan raises exactly when some listed object raises |
| DependencyVisualizer.TreeFilterPair | git_dependency_visualizer.py:44-50 | of two commits with one `tree` line each, exactly those whose tree contains the target are kept, in order |
| DependencyVisualizer.FirstCharAbsent | git_dependency_visualizer.py:49 | a target whose first character is absent from the tree value never matches |
| DependencyVisualizer.BuildDependencyGraph | git_dependency_visualizer.py:55-63 | the loop (decoding each payload first) returns the graph of the listed commits |
| DependencyVisualizer.GraphFromDistinct | git_dependency_visualizer.py:57-62 | the graph has one entry per commit, however often a commit is listed |
| DependencyVisualizer.GraphFromKeys | git_dependency_visualizer.py:58-62 | the graph's keys are exactly the listed commits |
| DependencyVisualizer.GraphFromLookup | git_dependency_visualizer.py:58-62 | each listed commit maps to the words of its last `parent` value, `[]` without one |
| DependencyVisualizer.MatchedCommitsBuild | git_dependency_visualizer.py:55-63 | the commits `find_commits` returned always build a graph |
| DependencyVisualizer.AsWrittenRaisesTypeError | git_dependency_visualizer.py:59-60 | as written, the undecoded payload of any commit raises TypeError |
| DependencyVisualizer.DecodedGraphOfParent | git_dependency_visualizer.py:59-62 | with the payload decoded, a `parent <p>` payload gives the graph `{h: [p]}` |
| DependencyVisualizer.GenerateGraphviz | git_dependency_visualizer.py:65-74 | the loop returns the header, the node-style line, the body and `}`, joined by newlines |
| DependencyVisualizer.DotLineCount | git_dependency_visualizer.py:67-73 | the text has 3 + \|graph\| + Σ\|parents\| lines |
| DependencyVisualizer.DotBlockAt | git_dependency_visualizer.py:69-72 | each entry gives its node line, then one edge line per parent in list order, at its computed position |
| DependencyVisualizer.DotSingleEdge | git_dependency_visualizer.py:65-74 | `{"C2": ["C1"]}` gives exactly the five expected lines |
| DependencyVisualizer.DotTextLines | git_dependency_visualizer.py:74 | splitting the text at newlines gives back the lines when no hash holds a newline |
| CommitVisualizer.ParseCommitObject | visualizer.py:23-41 | the loop returns the fold over the `split('\n')` lines that stops at the first empty line |
| CommitVisualizer.Step | visualizer.py:30-39 | one line raises exactly when it is malformed, and sets the tree only on a `tree` line |
| CommitVisualizer.StepParents | visualizer.py:33-34 | one line appends the second word of a `parent` line and keeps the parents otherwise |
| CommitVisualizer.StepAuthorTime | visualizer.py:35-37 | an `author` line sets the time to its next-to-last word; any other line keeps it |
| CommitVisualizer.SummarizeParents | visualizer.py:30-34 | the parents are the second words of all `parent` lines before the first empty line, in file order |
| CommitVisualizer.SummarizeParentCount | visualizer.py:33-34 | there is one parent per `parent` line |
| CommitVisualizer.SummarizeFails | visualizer.py:30-39 | the parse raises exactly when a line before the first empty line is malformed |
| CommitVisualizer.SummarizeAuthorTime | visualizer.py:35-37 | the author time comes from the last `author` line before the first empty line |
| CommitVisualizer.AuthorTimeKept | visualizer.py:28-41 | without an `author` line before the first empty line the author time stays as it was |
| CommitVisualizer.FullTextSkipsFirstLine | visualizer.py:56 | the whole object is parsed, so the line holding the header and the first payload line sets nothing |
| CommitVisualizer.ReadCandidate | visualizer.py:53-60 | one object gives its author time when it is a readable commit not after the date, else it is skipped |
| CommitVisualizer.GetAllCommits | visualizer.py:44-64 | the loop and the in-place sort return the hashes of the selected pairs after the stable sort |
| CommitVisualizer.SelectedMembership | visualizer.py:50-58 | the pairs collected are exactly the walked hashes that are kept, each with its author time |
| CommitVisualizer.AllCommitsMembership | visualizer.py:50-64 | a hash is returned exactly when the walk meets it and it is kept |
| CommitVisualizer.AllCommitsEarliestFirst | visualizer.py:63-64 | the returned hashes run from the earliest author time to the latest |
| CommitVisualizer.BuildCommitGraph | visualizer.py:67-77 | the loop returns the graph of the selected hashes |
| CommitVisualizer.CommitGraphEntries | visualizer.py:67-77 | the graph is always built; its keys are the selected hashes, one entry each, and each maps to its full parent list; when the walk meets each hash once the keys are exactly get_all_commits' list, in its order |
| CommitVisualizer.CommitGraphFromDistinct | visualizer.py:72-75 | assigning kept commits one by one keeps one entry per hash |
| CommitVisualizer.CommitGraphFromKeyOrder | visualizer.py:72-75 | hashes met once each, none already a key, become keys in the order met |
| CommitVisualizer.SelectedDistinct | visualizer.py:49-58 | a walk meeting each hash once collects each hash at most once |
| CommitVisualizer.CommitGraphEarliestFirst | visualizer.py:84-86 | the graph's entries, which generate_plantuml walks in order, ascend by author time, whether or not the walk repeats a hash |
| CommitVisualizer.CommitGraphFromLookup | visualizer.py:72-75 | every kept hash maps to the parents of its `parent` lines |
| CommitVisualizer.GeneratePlantUml | visualizer.py:80-93 | the loop with its counter returns `@startuml`, the edge statements and `@enduml`, joined by newlines |
| CommitVisualizer.PlantUmlShape | visualizer.py:82-92 | the text has 2 + Σ\|parents\| lines; the k-th edge statement labels the parent `k` and the commit `k+1` |
| CommitVisualizer.EdgesMembership | visualizer.py:86-89 | an edge is drawn exactly for each parent of each entry; an entry without parents draws nothing |
| CommitVisualizer.PlantUmlTextLines | visualizer.py:93 | splitting the text at newlines gives back its lines when no hash holds a newline |
| TimeOrder.SortByTime | visualizer.py:63 | the in-place sort leaves the array equal to the stable sort by time of its old contents |
| TimeOrder.SortedByTimeAscending | visualizer.py:63 | the sorted list ascends by time |
| TimeOrder.SortedByTimePermutation | visualizer.py:63 | the sort neither loses nor duplicates a pair |
| TimeOrder.SortedByTimeStable | visualizer.py:63 | pairs with equal times keep their encounter order |
| TimeOrder.SortedByTimeOfAscending | visualizer.py:63 | a list already in order is left as it is, so sorting is idempotent |
| TimeOrder.SortedByTimeDistinct | visualizer.py:63 | sorting a list with no hash twice gives a list with no hash twice |
| CommitWalk.Collect | test.py:43-62 | the record keeps the commit hash it was given |
| CommitWalk.ParseCommitData | test.py:41-63 | the loop returns the fold over all `split('\n')` lines, the first exception ending it |
| CommitWalk.StepParent | test.py:48-49 | a `parent` line sets the parent to its second word; any other line keeps it |
| CommitWalk.ParentKept | test.py:47-62 | without a `parent` line the parent stays as it was |
| CommitWalk.LastParentWins | test.py:47-49 | the parent is the second word of the last `parent` line, even after an empty line |
| CommitWalk.CommitterPositional | test.py:52-57 | committer, "e-mail" and time are the first, second and next-to-last words after the key |
| CommitWalk.MessageAsWrittenFirstWord | test.py:60-61 | a `message` line sets the message to its first word after the key only, shorter than the text after the key |
| CommitWalk.MessageKeepsWords | test.py:60-61 | the corrected message value is every word after the key |
| CommitWalk.TreePrefixedWordSetsTree | test.py:58-59 | any line whose first word begins with `tree`, a message body line included, sets the tree to its second word |
| CommitWalk.ReadCommit | test.py:13-39 | a hash under 40 characters raises ValueError; a missing object raises FileNotFoundError; a result keeps the hash |
| CommitWalk.ReadCommitObject | test.py:13-39 | the method returns what `ReadCommit` specifies |
| CommitWalk.ReadCommitSkipsFirstLine | test.py:36-44 | the header line glues onto the first payload line, which sets no field |
| CommitWalk.DetachedHead | test.py:72-79 | a HEAD holding a hash names that hash |
| CommitWalk.SymbolicHead | test.py:72-105 | a HEAD `ref: <name>` names the stripped content of file `<name>`, or raises FileNotFoundError |
| CommitWalk.Visit | test.py:84-85 | a commit read by the walk has a committer time and its own hash; one read without a time raises KeyError; an error of read_commit passes through |
| CommitWalk.GetCommitsAfterDate | test.py:65-98 | HEAD resolution and then the walk loop return the specified walk |
| CommitWalk.WalkCommits | test.py:82-96 | the loop returns the walk from its start commit |
| CommitWalk.Newer | test.py:90-91 | every commit kept is in the chain and not before the cutoff |
| CommitWalk.NewerKeeps | test.py:90-91 | every commit of the chain that is not before the cutoff is kept |
| CommitWalk.WalkIsNewerChain | test.py:83-96 | the walk keeps, newest first, exactly the chain's commits not before the cutoff; it skips older ones and goes on; it fails exactly when the chain does |
| CommitWalk.StoreReaderKeepsHash | test.py:43 | each record the walk reads carries the hash it was read by |
| CommitWalk.ChainLinks | test.py:82-96 | the chain starts at HEAD's commit, each commit's parent is the next, and the last has no parent |
| CommitWalk.WalkFuel | test.py:83-96 | once the walk ends within its read budget, a larger budget changes nothing |

## Left out

- Reading files, `os.walk`, `os.path.exists` and `os.path.join` are left out. They become the store, the walk sequence and the map of `.git` files. A `ref:` name that is an absolute path, which `os.path.join` would follow outside `.git`, is not modelled.
- `zlib.decompress` is left out. The store holds decompressed objects, already split into header and payload. So the ValueError that `read_git_object` raises for an object without a NUL cannot arise in the pipeline. `ObjectStore.SplitHeader` models that split on bytes on its own.
- UTF-8 decoding is abstract: a payload is decodable text or not. A header is taken to be ASCII text.
- The date conversions are left out: `datetime.fromtimestamp` and `replace` (test.py:85-88) and `strptime` (visualizer.py:116). Times and cutoffs are integer seconds. The errors `fromtimestamp` raises for out-of-range times are not modelled.
- `int()` is modelled for ASCII text: an optional sign, then digits with single underscores between them. Non-ASCII digits are not modelled.
- CommitWalk.WalkFrom: a cyclic `parent` chain makes the Python loop run forever. The model takes a read budget (`fuel`) and ends with `OutOfFuel` instead. `WalkFuel` shows the budget does not matter once it suffices.
- CommitVisualizer.CommitGraphEntries: the key list equals get_all_commits' list only when the walk meets each hash once. When a hash is met twice the keys are its first occurrences; the model states this only as membership, one entry per hash and ascending author time (`CommitGraphEarliestFirst`), not as an equation.
- DependencyVisualizer.BuildDependencyGraph: it decodes each payload before parsing, as intended. The code as written is `DependencyGraphAsWritten`; see Findings.
- The following are left out because they are I/O or third-party code:
  - `generate_graph` and `save_graph_as_png` (test.py:107-125, the graphviz library);
  - `save_plantuml_file` and `generate_graph_image` (visualizer.py:96-111, a Java subprocess);
  - writing the output file (git_dependency_visualizer.py:121-127).
- The program plumbing is left out: `main`, `parse_arguments`, `verify_repo_path`, `load_config`, the tests and their monkey-patching, and every `print`.
- `hashlib.sha1` is imported but unused, and content addressing is not modelled: a hash is just the key of its object.

## Findings

| source | as written | input that shows it | evidently intended | confidence | as-written member | corrected member |
|---|---|---|---|---|---|---|
| git_dependency_visualizer.py:59-60 | the payload bytes go to `parse_commit_data` undecoded; `line.split(" ", 1)` on bytes raises TypeError | any commit with a payload such as `parent <hash>` | decode the payload as UTF-8 first, as `find_commits` does at line 46 | not executed | DependencyVisualizer.AsWrittenRaisesTypeError | DependencyVisualizer.DecodedGraphOfParent |
| test.py:61 | `line.split()[1]` keeps only the first word of the message | `message Initial commit` gives `Initial`; the test at test.py:155 expects `Initial commit` | the message is every word after the key, joined by single spaces | not executed | CommitWalk.MessageAsWrittenFirstWord | CommitWalk.MessageKeepsWords |
