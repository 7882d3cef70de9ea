/**
  Properties of the configuration reader: what each kind of physical line
  does to a read, that a failed read keeps what it had committed, that a
  read merges into the map it is given, and the behaviour on small files.
 */
module ReadProperties {
  import opened Strings
  import opened ConfigReader

  // ---------------------------------------------------------------------
  // The line classifiers

  /** A header `[name]`, with any white-space padding, names the section
      `name` exactly as written between the brackets; `[]` names none. */
  lemma SectionHeaderName(a: string, name: string, b: string)
    requires AllSpace(a) && AllSpace(b)
    ensures CheckSection(a + "[" + name + "]" + b) == name
  {
    var t := "[" + name + "]";
    assert a + "[" + name + "]" + b == a + t + b;
    TrimSpacePadded(a, t, b);
  }

  /** A line without `=` before its first `=` splits into the trimmed
      text before it and the trimmed text after it; later `=` stay in the
      value. */
  lemma CheckLineSplitsAtFirstEquals(k: string, v: string)
    requires '=' !in k
    ensures CheckLine(k + "=" + v) == KeyValue(TrimSpace(k), TrimSpace(v))
  {
    assert k + "=" + v == k + ['='] + v;
    SplitFirstAtFirst(k, '=', v);
  }

  /** A line is a comment exactly when, once trimmed, it starts with `#`,
      with `;` or with `//`; a single `/` does not make a comment. */
  lemma CommentByFirstCharacters(line: string)
    ensures var t := TrimSpace(line);
      CheckComment(line) <==>
        (|t| >= 1 && (t[0] == '#' || t[0] == ';'))
        || (|t| >= 2 && t[0] == '/' && t[1] == '/')
  {
    var t := TrimSpace(line);
    if CheckComment(line) {
      var p :| p in CommentPrefixes && HasPrefix(t, p);
      assert p == "//" || p == "#" || p == ";";
    } else {
      assert CommentPrefixes[0] == "//" && CommentPrefixes[1] == "#" && CommentPrefixes[2] == ";";
      assert !HasPrefix(t, CommentPrefixes[0]) && !HasPrefix(t, CommentPrefixes[1]) && !HasPrefix(t, CommentPrefixes[2]);
    }
    CommentPrefixChars(t);
  }

  lemma CommentPrefixChars(t: string)
    ensures HasPrefix(t, "//") || HasPrefix(t, "#") || HasPrefix(t, ";") <==>
        (|t| >= 1 && (t[0] == '#' || t[0] == ';'))
        || (|t| >= 2 && t[0] == '/' && t[1] == '/')
  {
    if |t| >= 1 {
      assert t[..1][0] == t[0];
      assert t[0] == '#' ==> t[..1] == "#";
      assert t[0] == ';' ==> t[..1] == ";";
    }
    if |t| >= 2 {
      assert t[..2][0] == t[0] && t[..2][1] == t[1];
      assert t[0] == '/' && t[1] == '/' ==> t[..2] == "//";
    }
  }

  // ---------------------------------------------------------------------
  // Whole reads

  /** Reading `a + b` is reading `a`, then reading `b` from where `a`
      left off, unless `a` already aborted. */
  lemma {:induction false} ScanAppend(a: seq<string>, b: seq<string>, st: ScanState)
    ensures Scan(a + b, st) == match Scan(a, st)
      case Next(s) => Scan(b, s)
      case Abort(m, msg) => Abort(m, msg)
    decreases |a|
  {
    if a == [] {
      assert a + b == b;
    } else {
      assert (a + b)[0] == a[0] && (a + b)[1..] == a[1..] + b;
      match Step(st, a[0])
      case Next(s) => ScanAppend(a[1..], b, s);
      case Abort(m, msg) =>
    }
  }

  /** An abort happens at one physical line `j`: the lines before it ran
      without error, and the aborted read holds exactly the map they had
      built. Nothing is rolled back. */
  lemma {:induction false} AbortKeepsCommitted(lines: seq<string>, st: ScanState)
    requires Scan(lines, st).Abort?
    ensures exists j :: (0 <= j < |lines| && Scan(lines[..j], st).Next?
      && Step(Scan(lines[..j], st).state, lines[j]) == Scan(lines, st)
      && Scan(lines, st).entries == Scan(lines[..j], st).state.entries)
    decreases |lines|
  {
    assert lines[..0] == [];
    match Step(st, lines[0])
    case Abort(m, msg) =>
      StepChangesAtMostOneEntry(st, lines[0]);
      assert Scan(lines[..0], st) == Next(st);
    case Next(s) =>
      AbortKeepsCommitted(lines[1..], s);
      var j :| 0 <= j < |lines[1..]| && Scan(lines[1..][..j], s).Next?
        && Step(Scan(lines[1..][..j], s).state, lines[1..][j]) == Scan(lines[1..], s)
        && Scan(lines[1..], s).entries == Scan(lines[1..][..j], s).state.entries;
      assert lines[..j + 1][0] == lines[0] && lines[..j + 1][1..] == lines[1..][..j];
      assert Scan(lines[..j + 1], st) == Scan(lines[1..][..j], s);
  }

  /** Every abort message is `WRONG: ` followed by a logical line that has
      no `=`. */
  lemma {:induction false} AbortMessage(lines: seq<string>, st: ScanState)
    requires Scan(lines, st).Abort?
    ensures var msg := Scan(lines, st).message;
      HasPrefix(msg, "WRONG: ") && '=' !in msg[7..]
    decreases |lines|
  {
    match Step(st, lines[0])
    case Abort(m, msg) =>
      var joined := st.pending + lines[0];
      assert msg == "WRONG: " + joined && msg[7..] == joined;
    case Next(s) =>
      AbortMessage(lines[1..], s);
  }

  /** A failed `Read` returns `WRONG: ` and the offending logical line, and
      keeps every entry committed before it: the map is the one a
      successful read of the lines before the offending one leaves. */
  lemma ReadErrorKeepsEarlierEntries(lines: seq<string>, m: map<string, string>)
    requires Parse(lines, m).error.Some?
    ensures HasPrefix(Parse(lines, m).error.value, "WRONG: ")
    ensures '=' !in Parse(lines, m).error.value[7..]
    ensures exists j :: (0 <= j < |lines| && Parse(lines[..j], m).error == None
      && Parse(lines[..j], m).entries == Parse(lines, m).entries
      && Parse(lines, m).error.value == "WRONG: " + Scan(lines[..j], Start(m)).state.pending + lines[j])
  {
    var st := Start(m);
    AbortMessage(lines, st);
    AbortKeepsCommitted(lines, st);
    var j :| 0 <= j < |lines| && Scan(lines[..j], st).Next?
      && Step(Scan(lines[..j], st).state, lines[j]) == Scan(lines, st)
      && Scan(lines, st).entries == Scan(lines[..j], st).state.entries;
    AbortNamesLine(Scan(lines[..j], st).state, lines[j]);
  }

  /** A step that aborts names the logical line it failed on. */
  lemma AbortNamesLine(st: ScanState, text: string)
    requires Step(st, text).Abort?
    ensures Step(st, text).message == "WRONG: " + st.pending + text
  {
  }

  /** The map laid over `m`: a read on `m + e` is the read on `e` with `m`
      underneath. */
  function Under(m: map<string, string>, r: StepResult): StepResult {
    match r
    case Next(s) => Next(s.(entries := m + s.entries))
    case Abort(e, msg) => Abort(m + e, msg)
  }

  lemma StepUnder(m: map<string, string>, st: ScanState, text: string)
    ensures Step(st.(entries := m + st.entries), text) == Under(m, Step(st, text))
  {
    ApplyUnder(m, st, Classify(st.pending, text));
  }

  lemma ApplyUnder(m: map<string, string>, st: ScanState, action: LineAction)
    ensures Apply(st.(entries := m + st.entries), action) == Under(m, Apply(st, action))
  {
    if action.Commit? {
      var key := st.section + action.key;
      assert (m + st.entries)[key := action.value] == m + st.entries[key := action.value];
    }
  }

  lemma {:induction false} ScanUnder(m: map<string, string>, lines: seq<string>, st: ScanState)
    ensures Scan(lines, st.(entries := m + st.entries)) == Under(m, Scan(lines, st))
    decreases |lines|
  {
    if lines != [] {
      StepUnder(m, st, lines[0]);
      match Step(st, lines[0])
      case Next(s) =>
        ScanUnder(m, lines[1..], s);
      case Abort(e, msg) =>
    }
  }

  /** Reading into a non-empty map merges: the result is the map before
      the read overridden by what the same read stores into an empty map,
      and the error is the same. */
  lemma ReadMerges(lines: seq<string>, m: map<string, string>)
    ensures Parse(lines, m).error == Parse(lines, map[]).error
    ensures Parse(lines, m).entries == m + Parse(lines, map[]).entries
  {
    assert Start(m) == Start(map[]).(entries := m + map[]);
    ScanUnder(m, lines, Start(map[]));
  }

  /** A read never removes a key, and a key the file does not set keeps
      its value, whether the read succeeds or fails. */
  lemma ReadNeverClears(lines: seq<string>, m: map<string, string>, k: string)
    requires k in m
    ensures k in Parse(lines, m).entries
    ensures k !in Parse(lines, map[]).entries ==> Parse(lines, m).entries[k] == m[k]
  {
    ReadMerges(lines, m);
  }

  // ---------------------------------------------------------------------
  // Well-formed lines and small files

  /** A trimmed line that starts with none of `[`, `#`, `;` and `/` is
      neither a header nor a comment. */
  lemma PlainLine(text: string)
    requires text != "" && Trimmed(text)
    requires text[0] != '[' && text[0] != '#' && text[0] != ';' && text[0] != '/'
    ensures !CheckComment(text) && CheckSection(text) == ""
  {
    assert [] + text + [] == text;
    TrimSpacePadded([], text, []);
    CommentByFirstCharacters(text);
  }

  /** A completed logical line `k = v`, with no `=` in `k`, stores the
      trimmed `v` under the section prefix followed by the trimmed `k`. */
  lemma KeyValueLineCommits(st: ScanState, text: string, k: string, v: string)
    requires text != "" && !CheckComment(text)
    requires st.pending != "" || CheckSection(text) == ""
    requires !HasSuffix(st.pending + text, "\\")
    requires st.pending + text == k + "=" + v && '=' !in k
    ensures Step(st, text)
         == Next(ScanState("", st.section, st.entries[st.section + TrimSpace(k) := TrimSpace(v)]))
  {
    assert (k + "=" + v)[|k|] == '=';
    CheckLineSplitsAtFirstEquals(k, v);
    CommitStoresOneEntry(st, text);
  }

  /** A line ending in a backslash, read with nothing pending, opens a
      continuation: the line without its backslash becomes pending. */
  lemma ContinuationOpens(st: ScanState, text: string)
    requires st.pending == "" && !CheckComment(text)
    requires HasSuffix(text, "\\")
    ensures Step(st, text) == Next(st.(pending := text[..|text| - 1]))
  {
    BackslashLineIsNoHeader(text);
    assert st.pending + text == text;
    assert Classify(st.pending, text) == Continue(text[..|text| - 1]);
  }

  /** A line that does not end in a backslash closes the pending `k = v1`
      and stores the trimmed `v1 + v2` under the trimmed `k`. */
  lemma ContinuationCloses(st: ScanState, k: string, v1: string, v2: string)
    requires st.pending == k + "=" + v1 && '=' !in k
    requires v2 != "" && !CheckComment(v2) && !HasSuffix(v2, "\\")
    ensures Step(st, v2)
         == Next(ScanState("", st.section, st.entries[st.section + TrimSpace(k) := TrimSpace(v1 + v2)]))
  {
    var joined := st.pending + v2;
    assert joined == k + "=" + (v1 + v2);
    assert joined[|joined| - 1..] == v2[|v2| - 1..];
    KeyValueLineCommits(st, v2, k, v1 + v2);
  }

  /** A logical line split over two physical lines, `k = v1\` and `v2`, is
      joined without a separator: the key `k` gets the trimmed `v1 + v2`,
      so white space before the backslash stays inside the value. */
  lemma ContinuationJoinsWithoutSeparator(m: map<string, string>, k: string, v1: string, v2: string)
    requires '=' !in k
    requires !CheckComment(k + "=" + v1 + "\\")
    requires v2 != "" && !CheckComment(v2) && !HasSuffix(v2, "\\")
    ensures Parse([k + "=" + v1 + "\\", v2], m) == ReadOutcome(m[TrimSpace(k) := TrimSpace(v1 + v2)], None)
  {
    var lines := [k + "=" + v1 + "\\", v2];
    var s1 := Start(m).(pending := k + "=" + v1);
    var s2 := ScanState("", "", m[TrimSpace(k) := TrimSpace(v1 + v2)]);
    ContinuationOpens(Start(m), lines[0]);
    assert lines[0][..|lines[0]| - 1] == k + "=" + v1;
    ContinuationCloses(s1, k, v1, v2);
    assert "" + TrimSpace(k) == TrimSpace(k);
    ScanNext(lines, 0, Start(m), s1);
    ScanNext(lines, 1, s1, s2);
    assert lines[2..] == [];
  }

  /** A comment line in the middle of a continuation is skipped and the
      logical line goes on across it. */
  lemma CommentInsideContinuation(m: map<string, string>, k: string, v1: string, c: string, v2: string)
    requires '=' !in k
    requires !CheckComment(k + "=" + v1 + "\\")
    requires CheckComment(c)
    requires v2 != "" && !CheckComment(v2) && !HasSuffix(v2, "\\")
    ensures Parse([k + "=" + v1 + "\\", c, v2], m) == Parse([k + "=" + v1 + "\\", v2], m)
  {
    var lines := [k + "=" + v1 + "\\", c, v2];
    var short := [k + "=" + v1 + "\\", v2];
    var s1 := Start(m).(pending := k + "=" + v1);
    ContinuationOpens(Start(m), lines[0]);
    assert lines[0][..|lines[0]| - 1] == k + "=" + v1;
    CommentSkipped(s1, c);
    ScanNext(lines, 0, Start(m), s1);
    ScanNext(lines, 1, s1, s1);
    ScanNext(short, 0, Start(m), s1);
    assert lines[2..] == short[1..];
  }

  /** A last line that continues the logical line leaves it pending at the
      end of the file: it is dropped, and the read ends as the read of the
      lines before did, successfully and with the same map. */
  lemma DanglingContinuationDropped(lines: seq<string>, m: map<string, string>, text: string)
    requires Scan(lines, Start(m)).Next?
    requires !CheckComment(text)
    requires HasSuffix(text, "\\")
    ensures Parse(lines + [text], m) == Parse(lines, m)
  {
    var s := Scan(lines, Start(m)).state;
    ScanAppend(lines, [text], Start(m));
    var joined := s.pending + text;
    assert joined[|joined| - 1..] == text[|text| - 1..];
    ContinuationAppends(s, text);
    ScanNext([text], 0, s, s.(pending := joined[..|joined| - 1]));
    assert [text][1..] == [];
  }

  /** A physical line of white space only, read with nothing pending, is
      a logical line without `=`: the step aborts and names the line. */
  lemma BlankLineAborts(st: ScanState, text: string)
    requires text != "" && AllSpace(text) && st.pending == ""
    ensures Step(st, text) == Abort(st.entries, "WRONG: " + text)
  {
    assert text + "" + "" == text;
    TrimSpacePadded(text, "", "");
    CommentByFirstCharacters(text);
    assert !IsSpace('=') && !IsSpace('\\');
    assert text[|text| - 1..] != "\\" by {
      assert text[|text| - 1..][0] == text[|text| - 1];
    }
    assert "" + text == text;
    MalformedLineAborts(st, text);
  }

  /** A line of white space only is not an empty line: the read fails on
      it, naming it, and leaves the map as it was. */
  lemma BlankLineIsMalformed(m: map<string, string>, text: string)
    requires text != "" && AllSpace(text)
    ensures Parse([text], m) == ReadOutcome(m, Some("WRONG: " + text))
  {
    BlankLineAborts(Start(m), text);
    ScanStops([text], 0, Start(m));
  }

  /** A header `[name]`, padded with white space and read with nothing
      pending, sets the section prefix to `name.`. */
  lemma HeaderEntersSection(st: ScanState, a: string, name: string, b: string)
    requires AllSpace(a) && AllSpace(b) && name != "" && st.pending == ""
    ensures Step(st, a + "[" + name + "]" + b) == Next(st.(section := name + "."))
  {
    SectionHeaderName(a, name, b);
    SectionHeaderSetsPrefix(st, a + "[" + name + "]" + b);
  }

  /** A complete line `k = v` read with nothing pending stores the
      trimmed `v` under the section prefix and the trimmed `k`. */
  lemma KeyValueLineStored(st: ScanState, k: string, v: string)
    requires st.pending == "" && '=' !in k
    requires !CheckComment(k + "=" + v) && CheckSection(k + "=" + v) == ""
    requires !HasSuffix(k + "=" + v, "\\")
    ensures Step(st, k + "=" + v)
         == Next(ScanState("", st.section, st.entries[st.section + TrimSpace(k) := TrimSpace(v)]))
  {
    var text := k + "=" + v;
    assert text == k + ['='] + v;
    SplitFirstAtFirst(k, '=', v);
    assert st.pending + text == text;
    CommitStoresOneEntry(st, text);
  }

  /** A key-value line after a header `[name]` is stored under the
      qualified key `name.key`. */
  lemma SectionQualifiesKeys(m: map<string, string>, a: string, name: string, b: string, k: string, v: string)
    requires AllSpace(a) && AllSpace(b) && name != ""
    requires '=' !in k
    requires !CheckComment(k + "=" + v) && CheckSection(k + "=" + v) == ""
    requires !HasSuffix(k + "=" + v, "\\")
    ensures Parse([a + "[" + name + "]" + b, k + "=" + v], m)
         == ReadOutcome(m[name + "." + TrimSpace(k) := TrimSpace(v)], None)
  {
    var lines := [a + "[" + name + "]" + b, k + "=" + v];
    var s1 := ScanState("", name + ".", m);
    var s2 := ScanState("", name + ".", m[name + "." + TrimSpace(k) := TrimSpace(v)]);
    HeaderEntersSection(Start(m), a, name, b);
    KeyValueLineStored(s1, k, v);
    ScanNext(lines, 0, Start(m), s1);
    ScanNext(lines, 1, s1, s2);
    assert lines[2..] == [];
  }
}
