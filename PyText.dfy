/** The Python built-ins that the three pipelines lean on, stated over `string`
    (a sequence of Unicode scalar values): whitespace `split()`, `split(c)`,
    `splitlines()`, `split(" ", 1)`, the substring test `t in s`, `strip()`,
    `int()`, the decimal rendering of an `int` in an f-string, `"\n".join`
    and `os.path.basename`. Also the outcomes Python code can end in. */
module PyText {

  datatype Option<T> = None | Some(value: T)

  /** The Python exceptions that the modelled code raises or catches. */
  datatype PyError =
    | ValueError          // unpacking too few values, int() of a non-number, a short hash
    | IndexError          // a token position beyond what split() produced
    | KeyError            // a missing dictionary key read with []
    | TypeError           // bytes mixed with str, None compared with int
    | UnicodeDecodeError  // bytes that are not UTF-8
    | FileNotFoundError   // no file at the derived path

  datatype Result<T> = Ok(value: T) | Err(error: PyError)

  /** Python's str.isspace() for one character. */
  predicate IsSpace(c: char) {
    c == ' ' || ('\t' <= c <= '\r') || ('\U{1c}' <= c <= '\U{1f}')
    || c == '\U{85}' || c == '\U{a0}' || c == '\U{1680}'
    || ('\U{2000}' <= c <= '\U{200a}') || c == '\U{2028}' || c == '\U{2029}'
    || c == '\U{202f}' || c == '\U{205f}' || c == '\U{3000}'
  }

  predicate NoSpace(s: string) {
    forall i :: 0 <= i < |s| ==> !IsSpace(s[i])
  }

  /** Printable ASCII other than the space is never whitespace. */
  predicate IsGraphic(s: string) {
    forall i :: 0 <= i < |s| ==> '!' <= s[i] <= '~'
  }

  lemma GraphicNoSpace(s: string)
    requires IsGraphic(s)
    ensures NoSpace(s)
  {
  }

  /** Index of the first occurrence of `c` in `s`, or |s| when there is none. */
  function IndexOf(s: string, c: char): (n: nat)
    ensures n <= |s|
    ensures n < |s| ==> s[n] == c
    ensures forall i :: 0 <= i < n ==> s[i] != c
  {
    if s == [] then 0 else if s[0] == c then 0 else 1 + IndexOf(s[1..], c)
  }

  // ---------------------------------------------------------------------------
  // str.split() without arguments: the maximal runs of non-whitespace

  /** Length of the longest prefix of `s` without whitespace. */
  function WordLength(s: string): (n: nat)
    ensures n <= |s|
    ensures forall i :: 0 <= i < n ==> !IsSpace(s[i])
    ensures n < |s| ==> IsSpace(s[n])
  {
    if s == [] || IsSpace(s[0]) then 0 else 1 + WordLength(s[1..])
  }

  function Tokens(s: string): (r: seq<string>)
    ensures forall i :: 0 <= i < |r| ==> r[i] != [] && NoSpace(r[i])
    decreases |s|
  {
    if s == [] then []
    else if IsSpace(s[0]) then Tokens(s[1..])
    else
      var n := WordLength(s);
      [s[..n]] + Tokens(s[n..])
  }

  /** A word is one token on its own. */
  lemma TokensOfWord(w: string)
    requires w != [] && NoSpace(w)
    ensures Tokens(w) == [w]
  {
    TokensWordThen(w, []);
    assert w + [] == w;
  }

  /** A word followed by whitespace, or by nothing, is the first token. */
  lemma TokensWordThen(w: string, rest: string)
    requires w != [] && NoSpace(w) && (rest == [] || IsSpace(rest[0]))
    ensures Tokens(w + rest) == [w] + Tokens(rest)
  {
    var s := w + rest;
    WordLengthWordThen(w, rest);
    TokensWordFirst(s, |w|);
    assert s[..|w|] == w;
    assert s[|w|..] == rest;
  }

  lemma {:induction false} WordLengthWordThen(w: string, rest: string)
    requires NoSpace(w) && (rest == [] || IsSpace(rest[0]))
    ensures WordLength(w + rest) == |w|
    decreases |w|
  {
    if w == [] {
      assert w + rest == rest;
    } else {
      assert (w + rest)[0] == w[0];
      assert (w + rest)[1..] == w[1..] + rest;
      WordLengthWordThen(w[1..], rest);
    }
  }

  /** A leading word is the first token. */
  lemma TokensWordFirst(s: string, n: nat)
    requires s != [] && !IsSpace(s[0]) && n == WordLength(s)
    ensures Tokens(s) == [s[..n]] + Tokens(s[n..])
  {
  }

  /** Leading whitespace adds no token. */
  lemma TokensSpaceFirst(c: char, b: string)
    requires IsSpace(c)
    ensures Tokens([c] + b) == Tokens(b)
  {
    assert ([c] + b)[1..] == b;
  }

  /** Words joined by single spaces split back into the same words. */
  lemma {:induction false} TokensOfJoin(ws: seq<string>)
    requires forall i :: 0 <= i < |ws| ==> ws[i] != [] && NoSpace(ws[i])
    ensures Tokens(Join(ws, ' ')) == ws
    decreases |ws|
  {
    if |ws| == 1 {
      TokensOfWord(ws[0]);
    } else if |ws| > 1 {
      var rest := Join(ws[1..], ' ');
      TokensWordThen(ws[0], [' '] + rest);
      TokensSpaceFirst(' ', rest);
      TokensOfJoin(ws[1..]);
      assert ws[0] + [' '] + rest == ws[0] + ([' '] + rest);
      assert [ws[0]] + ws[1..] == ws;
    }
  }

  // ---------------------------------------------------------------------------
  // str.split(c) with a one-character separator, and its inverse c.join

  function SplitOn(s: string, c: char): (r: seq<string>)
    ensures |r| >= 1
    ensures forall i :: 0 <= i < |r| ==> c !in r[i]
    decreases |s|
  {
    var i := IndexOf(s, c);
    if i == |s| then [s] else [s[..i]] + SplitOn(s[i + 1..], c)
  }

  function Join(parts: seq<string>, c: char): string
  {
    if |parts| == 0 then []
    else if |parts| == 1 then parts[0]
    else parts[0] + [c] + Join(parts[1..], c)
  }

  /** Joining the pieces of a split gives back the string. */
  lemma {:induction false} JoinSplitOn(s: string, c: char)
    ensures Join(SplitOn(s, c), c) == s
    decreases |s|
  {
    var i := IndexOf(s, c);
    if i < |s| {
      var rest := SplitOn(s[i + 1..], c);
      JoinSplitOn(s[i + 1..], c);
      var parts := SplitOn(s, c);
      assert parts == [s[..i]] + rest;
      assert parts[1..] == rest;
      assert Join(parts, c) == s[..i] + [c] + Join(rest, c);
      assert s == s[..i] + [c] + s[i + 1..];
    }
  }

  /** Splitting a join gives back the pieces, provided none holds the separator. */
  lemma {:induction false} SplitOnJoin(parts: seq<string>, c: char)
    requires |parts| >= 1
    requires forall i :: 0 <= i < |parts| ==> c !in parts[i]
    ensures SplitOn(Join(parts, c), c) == parts
    decreases |parts|
  {
    if |parts| == 1 {
    } else {
      var s := Join(parts, c);
      assert s == parts[0] + [c] + Join(parts[1..], c);
      IndexOfAfter(parts[0], c, Join(parts[1..], c));
      assert s[..|parts[0]|] == parts[0];
      assert s[|parts[0]| + 1..] == Join(parts[1..], c);
      SplitOnJoin(parts[1..], c);
    }
  }

  lemma IndexOfAfter(a: string, c: char, b: string)
    requires c !in a
    ensures IndexOf(a + [c] + b, c) == |a|
  {
    var s := a + [c] + b;
    assert s[|a|] == c;
    forall k | 0 <= k < |a| ensures s[k] != c {
      assert s[k] == a[k] && a[k] in a;
    }
  }

  /** A prefix free of the separator joins the first piece of what follows it. */
  lemma SplitOnPrefix(a: string, b: string, c: char)
    requires c !in a
    ensures SplitOn(a + b, c) == [a + SplitOn(b, c)[0]] + SplitOn(b, c)[1..]
  {
    if IndexOf(b, c) < |b| {
      SplitOnPrefixCut(a, b, c);
    } else {
      IndexOfShift(a, b, c);
    }
  }

  lemma SplitOnPrefixCut(a: string, b: string, c: char)
    requires c !in a && IndexOf(b, c) < |b|
    ensures SplitOn(a + b, c) == [a + SplitOn(b, c)[0]] + SplitOn(b, c)[1..]
  {
    IndexOfShift(a, b, c);
    var s := a + b;
    var i := IndexOf(b, c);
    var j := |a| + i;
    SplitOnAt(b, c, i);
    SplitOnAt(s, c, j);
    assert s[..j] == a + b[..i];
    assert s[j + 1..] == b[i + 1..];
  }

  /** One step of the split at the first separator, found at `j`. */
  lemma SplitOnAt(s: string, c: char, j: nat)
    requires j < |s| && IndexOf(s, c) == j
    ensures SplitOn(s, c) == [s[..j]] + SplitOn(s[j + 1..], c)
  {
  }

  /** A prefix free of `c` shifts the first occurrence of `c` by its length. */
  lemma IndexOfShift(a: string, b: string, c: char)
    requires c !in a
    ensures IndexOf(a + b, c) == |a| + IndexOf(b, c)
  {
    var s := a + b;
    var i := IndexOf(b, c);
    forall k | 0 <= k < |a| + i ensures s[k] != c {
      if k < |a| {
        assert s[k] == a[k] && a[k] in a;
      } else {
        assert s[k] == b[k - |a|];
      }
    }
    IndexOfUnique(s, c, |a| + i);
  }

  /** The first occurrence is the only position with the separator and none before it. */
  lemma IndexOfUnique(s: string, c: char, n: nat)
    requires n <= |s| && (n < |s| ==> s[n] == c)
    requires forall k :: 0 <= k < n ==> s[k] != c
    ensures IndexOf(s, c) == n
  {
  }

  // ---------------------------------------------------------------------------
  // str.splitlines(): line boundaries \n, \r, \r\n, \v, \f, \x1c-\x1e, \x85, U+2028, U+2029

  predicate IsLineBreak(c: char) {
    c == '\n' || c == '\r' || c == '\U{0b}' || c == '\U{0c}' || ('\U{1c}' <= c <= '\U{1e}')
    || c == '\U{85}' || c == '\U{2028}' || c == '\U{2029}'
  }

  predicate NoLineBreak(s: string) {
    forall j :: 0 <= j < |s| ==> !IsLineBreak(s[j])
  }

  lemma NoLineBreakConcat(a: string, b: string)
    requires NoLineBreak(a) && NoLineBreak(b)
    ensures NoLineBreak(a + b)
  {
    forall j | 0 <= j < |a + b| ensures !IsLineBreak((a + b)[j]) {
      if j < |a| { assert (a + b)[j] == a[j]; } else { assert (a + b)[j] == b[j - |a|]; }
    }
  }

  /** Index of the first line boundary in `s`, or |s|. */
  function LineEnd(s: string): (n: nat)
    ensures n <= |s|
    ensures n < |s| ==> IsLineBreak(s[n])
    ensures forall i :: 0 <= i < n ==> !IsLineBreak(s[i])
  {
    if s == [] || IsLineBreak(s[0]) then 0 else 1 + LineEnd(s[1..])
  }

  function SplitLines(s: string): (r: seq<string>)
    ensures forall i :: 0 <= i < |r| ==> NoLineBreak(r[i])
    decreases |s|
  {
    if s == [] then []
    else
      var i := LineEnd(s);
      if i == |s| then [s]
      else
        var w := if s[i] == '\r' && i + 1 < |s| && s[i + 1] == '\n' then 2 else 1;
        [s[..i]] + SplitLines(s[i + w..])
  }

  /** splitlines() undoes a join on '\n' when no line holds a boundary and the last is not empty. */
  lemma {:induction false} SplitLinesJoin(lines: seq<string>)
    requires |lines| >= 1 && lines[|lines| - 1] != []
    requires forall i :: 0 <= i < |lines| ==> NoLineBreak(lines[i])
    ensures SplitLines(Join(lines, '\n')) == lines
    decreases |lines|
  {
    var a := lines[0];
    if |lines| == 1 {
      LineEndOfLine(a, []);
      assert a + [] == a;
    } else {
      var rest := Join(lines[1..], '\n');
      var s := Join(lines, '\n');
      assert s == a + ['\n'] + rest;
      LineEndOfLine(a, ['\n'] + rest);
      assert s == a + (['\n'] + rest);
      assert s[..|a|] == a;
      assert s[|a| + 1..] == rest;
      SplitLinesJoin(lines[1..]);
    }
  }

  lemma {:induction false} LineEndOfLine(a: string, rest: string)
    requires NoLineBreak(a)
    requires rest != [] ==> IsLineBreak(rest[0])
    ensures LineEnd(a + rest) == |a|
    decreases |a|
  {
    if a != [] {
      assert (a + rest)[1..] == a[1..] + rest;
      LineEndOfLine(a[1..], rest);
    } else if rest != [] {
      assert (a + rest)[0] == rest[0];
    }
  }

  // ---------------------------------------------------------------------------
  // `key, value = line.split(" ", 1)`

  /** The two halves of `line` around its first space; None when a two-way
      unpacking of the split would fail because there is no space. */
  function SplitOnce(line: string): (r: Option<(string, string)>)
    ensures r.Some? <==> ' ' in line
    ensures r.Some? ==> ' ' !in r.value.0 && r.value.0 + [' '] + r.value.1 == line
  {
    var i := IndexOf(line, ' ');
    if i == |line| then None
    else
      assert line == line[..i] + [' '] + line[i + 1..];
      Some((line[..i], line[i + 1..]))
  }

  // ---------------------------------------------------------------------------
  // `t in s` for strings

  /** `t` occurs in `s` starting at offset `i`. */
  predicate OccursAt(t: string, s: string, i: int) {
    0 <= i <= |s| - |t| && s[i..i + |t|] == t
  }

  predicate IsSubstring(t: string, s: string)
    decreases |s|
  {
    t <= s || (s != [] && IsSubstring(t, s[1..]))
  }

  /** Substring test as an index: `t in s` iff `t` occurs at some offset of `s`. */
  lemma {:induction false} IsSubstringIff(t: string, s: string)
    ensures IsSubstring(t, s) <==> exists i :: OccursAt(t, s, i)
    decreases |s|
  {
    if t <= s {
      assert OccursAt(t, s, 0);
    } else if s == [] {
      assert forall i :: !OccursAt(t, s, i);
    } else {
      IsSubstringIff(t, s[1..]);
      if exists i :: OccursAt(t, s, i) {
        var i :| OccursAt(t, s, i);
        OccursAtTail(t, s, i);
      }
      if exists i :: OccursAt(t, s[1..], i) {
        var i :| OccursAt(t, s[1..], i);
        OccursAtTail(t, s, i + 1);
      }
    }
  }

  /** An occurrence at offset `i` is either a prefix or one in the tail at `i - 1`. */
  lemma OccursAtTail(t: string, s: string, i: int)
    requires s != []
    ensures OccursAt(t, s, i) <==> (i == 0 && t <= s) || (i >= 1 && OccursAt(t, s[1..], i - 1))
  {
    if i == 0 && |t| <= |s| {
      assert s[0..|t|] == s[..|t|];
    } else if i >= 1 && i + |t| <= |s| {
      var here, there := s[i..i + |t|], s[1..][i - 1..i - 1 + |t|];
      assert forall j :: 0 <= j < |t| ==> here[j] == there[j];
      assert here == there;
    }
  }

  // ---------------------------------------------------------------------------
  // str.strip()

  function StripLeft(s: string): (r: string)
    ensures r == [] || !IsSpace(r[0])
    ensures |r| <= |s| && r == s[|s| - |r|..]
  {
    if s != [] && IsSpace(s[0]) then StripLeft(s[1..]) else s
  }

  function StripRight(s: string): (r: string)
    ensures r == [] || !IsSpace(r[|r| - 1])
    ensures r <= s
  {
    if s != [] && IsSpace(s[|s| - 1]) then StripRight(s[..|s| - 1]) else s
  }

  function Strip(s: string): string
  {
    StripRight(StripLeft(s))
  }

  /** strip() leaves a word surrounded by whitespace as the word itself. */
  lemma {:induction false} StripWord(pre: string, w: string, post: string)
    requires forall i :: 0 <= i < |pre| ==> IsSpace(pre[i])
    requires forall i :: 0 <= i < |post| ==> IsSpace(post[i])
    requires w != [] && !IsSpace(w[0]) && !IsSpace(w[|w| - 1])
    ensures Strip(pre + w + post) == w
  {
    StripLeftSpaces(pre, w + post);
    assert pre + w + post == pre + (w + post);
    StripRightSpaces(w, post);
  }

  lemma {:induction false} StripLeftSpaces(pre: string, s: string)
    requires forall i :: 0 <= i < |pre| ==> IsSpace(pre[i])
    requires s != [] && !IsSpace(s[0])
    ensures StripLeft(pre + s) == s
    decreases |pre|
  {
    if pre == [] {
      assert pre + s == s;
    } else {
      var t := pre + s;
      assert t[0] == pre[0] && IsSpace(t[0]);
      assert t[1..] == pre[1..] + s;
      assert StripLeft(t) == StripLeft(t[1..]);
      assert forall i :: 0 <= i < |pre[1..]| ==> pre[1..][i] == pre[i + 1];
      StripLeftSpaces(pre[1..], s);
    }
  }

  lemma {:induction false} StripRightSpaces(s: string, post: string)
    requires forall i :: 0 <= i < |post| ==> IsSpace(post[i])
    requires s != [] && !IsSpace(s[|s| - 1])
    ensures StripRight(s + post) == s
    decreases |post|
  {
    if post == [] {
      assert s + post == s;
    } else {
      assert (s + post)[..|s + post| - 1] == s + post[..|post| - 1];
      StripRightSpaces(s, post[..|post| - 1]);
    }
  }

  // ---------------------------------------------------------------------------
  // int() of a token, and the decimal rendering of a natural number

  predicate IsDigit(c: char) { '0' <= c <= '9' }

  /** Decimal digits where single underscores may separate two digits, as int() accepts. */
  predicate IsDigitRun(s: string) {
    s != [] && IsDigit(s[0]) && IsDigit(s[|s| - 1])
    && (forall i :: 0 <= i < |s| ==> IsDigit(s[i]) || s[i] == '_')
    && (forall i :: 0 <= i < |s| - 1 ==> !(s[i] == '_' && s[i + 1] == '_'))
  }

  /** Value of a run of digits and underscores, read left to right, underscores skipped. */
  function DigitsValue(s: string): nat
    decreases |s|
  {
    if s == [] then 0
    else
      var last := s[|s| - 1];
      if IsDigit(last) then DigitsValue(s[..|s| - 1]) * 10 + (last as int - '0' as int)
      else DigitsValue(s[..|s| - 1])
  }

  /** int(token) for an ASCII token: an optional sign, then a digit run; None stands for ValueError. */
  function ParseInt(s: string): (r: Option<int>)
    ensures r.Some? ==> s != [] && (IsDigit(s[0]) || s[0] == '+' || s[0] == '-')
    ensures r.Some? && r.value < 0 ==> s[0] == '-'
  {
    if s != [] && (s[0] == '+' || s[0] == '-') then
      var body := s[1..];
      var v: int := DigitsValue(body);
      if IsDigitRun(body) then Some(if s[0] == '-' then -v else v)
      else None
    else if IsDigitRun(s) then Some(DigitsValue(s))
    else None
  }

  /** A character other than a digit or an underscore after the first
      position makes int() raise ValueError, as for the token "1a". */
  lemma ParseIntRejectsStray(s: string, i: nat)
    requires 0 < i < |s| && !IsDigit(s[i]) && s[i] != '_'
    ensures ParseInt(s) == None
  {
    if s[0] == '+' || s[0] == '-' {
      assert s[1..][i - 1] == s[i];
    }
  }

  function DigitChar(d: nat): char
    requires d < 10
  {
    ['0', '1', '2', '3', '4', '5', '6', '7', '8', '9'][d]
  }

  /** The text an f-string gives a natural number. */
  function NatToDecimal(n: nat): (r: string)
    ensures r != [] && forall i :: 0 <= i < |r| ==> IsDigit(r[i])
  {
    if n < 10 then [DigitChar(n)] else NatToDecimal(n / 10) + [DigitChar(n % 10)]
  }

  /** int() reads back what the f-string printed. */
  lemma {:induction false} ParseIntNatToDecimal(n: nat)
    ensures ParseInt(NatToDecimal(n)) == Some(n)
  {
    DigitsValueOfDecimal(n);
  }

  /** int() reads a minus sign before decimal digits as a negative number. */
  lemma ParseIntNegativeDecimal(n: nat)
    ensures ParseInt("-" + NatToDecimal(n)) == Some(-(n as int))
  {
    var s := "-" + NatToDecimal(n);
    assert s[1..] == NatToDecimal(n);
    DigitsValueOfDecimal(n);
  }

  lemma {:induction false} DigitsValueOfDecimal(n: nat)
    ensures DigitsValue(NatToDecimal(n)) == n
  {
    var s := NatToDecimal(n);
    if n >= 10 {
      DigitsValueOfDecimal(n / 10);
      assert s[..|s| - 1] == NatToDecimal(n / 10);
    }
  }

  // ---------------------------------------------------------------------------
  // os.path.basename on POSIX paths

  /** Index just past the last '/' of `p`, or 0. */
  function AfterLastSlash(p: string): (n: nat)
    ensures n <= |p|
    ensures n > 0 ==> p[n - 1] == '/'
    ensures forall i :: n <= i < |p| ==> p[i] != '/'
  {
    if p == [] then 0
    else if p[|p| - 1] == '/' then |p|
    else AfterLastSlash(p[..|p| - 1])
  }

  function Basename(p: string): (r: string)
    ensures '/' !in r
    ensures |r| <= |p| && r == p[|p| - |r|..]
  {
    var n := AfterLastSlash(p);
    assert forall i :: 0 <= i < |p[n..]| ==> p[n..][i] != '/';
    p[n..]
  }

  /** The basename is the whole suffix after the last '/': it is the whole
      path, or the character before it is a '/', and it holds none. */
  lemma BasenameAfterLastSlash(p: string)
    ensures var r := Basename(p);
      '/' !in r && r == p[|p| - |r|..] && (|r| == |p| || p[|p| - |r| - 1] == '/')
  {
  }
}
