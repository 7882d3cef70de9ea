/**
  An INI-style configuration reader. A file is read line by line into a flat
  map from qualified keys (`key`, or `section.key` inside a `[section]`) to
  string values. Lines ending in a backslash continue on the next line, and
  lines starting with `//`, `#` or `;` are comments.

  `Parse` is the reference definition of one read: a pure function over the
  physical lines of the file and the map before the read. `Config.Read` is
  the imperative reader, proved to produce exactly what `Parse` describes.
 */
module ConfigReader {
  import opened Strings

  datatype Option<T> = None | Some(value: T)

  /** The prefixes that mark a comment line. */
  const CommentPrefixes: seq<string> := ["//", "#", ";"]

  /** True of a trimmed line `[...]` of at least two characters. */
  predicate IsBracketed(t: string) {
    |t| >= 2 && t[0] == '[' && t[|t| - 1] == ']'
  }

  /** The section name of a header line: the text strictly between the
      brackets of the trimmed line, itself not trimmed; `""` for a line that
      is not bracketed (and for `[]`). */
  function CheckSection(line: string): (name: string)
    ensures IsBracketed(TrimSpace(line)) ==> "[" + name + "]" == TrimSpace(line)
    ensures !IsBracketed(TrimSpace(line)) ==> name == ""
  {
    var t := TrimSpace(line);
    if IsBracketed(t) then
      BracketsAround(t);
      t[1..|t| - 1]
    else ""
  }

  lemma BracketsAround(t: string)
    requires IsBracketed(t)
    ensures "[" + t[1..|t| - 1] + "]" == t
  {
  }

  /** What `checkLine` makes of a logical line. */
  datatype LineResult = KeyValue(key: string, value: string) | Malformed(message: string)

  /** Splits a logical line at its first `=` into a trimmed key and a trimmed
      value; fails, naming the line, exactly when there is no `=`. */
  function CheckLine(line: string): (r: LineResult)
    ensures r.Malformed? <==> '=' !in line
    ensures r.Malformed? ==> r.message == "WRONG: " + line
    ensures r.KeyValue? ==>
      exists i :: 0 <= i < |line| && line[i] == '=' && '=' !in line[..i]
        && r.key == TrimSpace(line[..i]) && r.value == TrimSpace(line[i + 1..])
  {
    var sp := SplitFirst(line, '=');
    SplitFirstParts(line, '=');
    if |sp| != 2 then Malformed("WRONG: " + line)
    else
      var i := |sp[0]|;
      assert line[..i] == sp[0] && line[i] == '=' && line[i + 1..] == sp[1] by {
        assert line == sp[0] + ['='] + sp[1];
      }
      KeyValue(TrimSpace(sp[0]), TrimSpace(sp[1]))
  }

  /** True when the trimmed line starts with one of the comment prefixes. */
  predicate CheckComment(line: string) {
    exists p | p in CommentPrefixes :: HasPrefix(TrimSpace(line), p)
  }

  /** The state of a read between two physical lines: the pending logical
      line being continued, the current section prefix (`""` or `name.`)
      and the map as filled so far. */
  datatype ScanState = ScanState(pending: string, section: string, entries: map<string, string>)

  /** The state a read starts from, on the map `m` it fills. */
  function Start(m: map<string, string>): ScanState {
    ScanState("", "", m)
  }

  /** What one physical line does, given the pending logical line. */
  datatype LineAction =
    | Skip                               // an empty line, or a comment
    | EnterSection(prefix: string)       // a header: the new section prefix
    | Continue(pending: string)          // the logical line goes on
    | Commit(key: string, value: string) // the logical line is complete
    | Fail(message: string)              // the logical line has no `=`

  /** The decisions of one iteration of the reading loop, in their order:
      empty line, header (only with nothing pending), comment, continuation,
      and finally the split of the completed logical line. */
  function Classify(pending: string, text: string): LineAction {
    if text == "" then Skip
    else if pending == "" && CheckSection(text) != "" then EnterSection(CheckSection(text) + ".")
    else if CheckComment(text) then Skip
    else
      var joined := pending + text;
      if HasSuffix(joined, "\\") then Continue(joined[..|joined| - 1])
      else match CheckLine(joined)
        case Malformed(_) => Fail("WRONG: " + joined)
        case KeyValue(key, value) => Commit(key, value)
  }

  /** The effect of one physical line: the next state, or the abort of the
      read with the map as it stands and the error message. */
  datatype StepResult = Next(state: ScanState) | Abort(entries: map<string, string>, message: string)

  /** One iteration of the reading loop, on the physical line `text`. */
  function Step(st: ScanState, text: string): StepResult {
    Apply(st, Classify(st.pending, text))
  }

  /** The state change an action makes. */
  function Apply(st: ScanState, action: LineAction): StepResult {
    match action
    case Skip => Next(st)
    case EnterSection(prefix) => Next(st.(section := prefix))
    case Continue(pending) => Next(st.(pending := pending))
    case Commit(key, value) => Next(ScanState("", st.section, st.entries[st.section + key := value]))
    case Fail(message) => Abort(st.entries, message)
  }

  /** The reading loop over the remaining physical lines: the state after
      the last line, or the first abort. */
  function Scan(lines: seq<string>, st: ScanState): StepResult
    decreases |lines|
  {
    if lines == [] then Next(st)
    else match Step(st, lines[0])
      case Next(st') => Scan(lines[1..], st')
      case Abort(m, msg) => Abort(m, msg)
  }

  /** An empty physical line changes nothing, not even a pending
      continuation. */
  lemma EmptyLineSkipped(st: ScanState)
    ensures Step(st, "") == Next(st)
  {
  }

  /** A header read while no continuation is pending sets the section
      prefix to its name and a dot, and changes nothing else. */
  lemma SectionHeaderSetsPrefix(st: ScanState, text: string)
    requires st.pending == "" && CheckSection(text) != ""
    ensures Step(st, text) == Next(ScanState("", CheckSection(text) + ".", st.entries))
  {
  }

  /** The section prefix changes only on a non-empty header read while no
      continuation is pending, and then to `name.`. */
  lemma SectionChangesOnlyAtHeader(st: ScanState, text: string)
    requires Step(st, text).Next? && Step(st, text).state.section != st.section
    ensures st.pending == "" && text != "" && CheckSection(text) != ""
    ensures Step(st, text).state.section == CheckSection(text) + "."
  {
    ApplyKeepsSection(st, Classify(st.pending, text));
    ClassifyEntersOnlyAtHeader(st.pending, text);
  }

  /** Every action but entering a section keeps the section prefix. */
  lemma ApplyKeepsSection(st: ScanState, action: LineAction)
    ensures !action.EnterSection? && Apply(st, action).Next? ==> Apply(st, action).state.section == st.section
  {
  }

  /** Only a non-empty header read with nothing pending enters a section. */
  lemma ClassifyEntersOnlyAtHeader(pending: string, text: string)
    ensures Classify(pending, text).EnterSection? ==>
      text != "" && pending == "" && CheckSection(text) != ""
      && Classify(pending, text).prefix == CheckSection(text) + "."
  {
    if text != "" && !(pending == "" && CheckSection(text) != "") && !CheckComment(text) {
      var joined := pending + text;
      if !HasSuffix(joined, "\\") {
        match CheckLine(joined)
        case Malformed(_) =>
        case KeyValue(_, _) =>
      }
    }
  }

  /** A comment is never a header: its trimmed form starts with `/`, `#`
      or `;`, not with `[`. */
  lemma CommentIsNoHeader(text: string)
    requires CheckComment(text)
    ensures CheckSection(text) == ""
  {
    var t := TrimSpace(text);
    var p :| p in CommentPrefixes && HasPrefix(t, p);
    assert t[0] == t[..|p|][0] == p[0];
  }

  /** A line ending in a backslash is never a header: its trimmed form
      ends in the backslash, not in `]`. */
  lemma BackslashLineIsNoHeader(text: string)
    requires HasSuffix(text, "\\")
    ensures CheckSection(text) == ""
  {
    assert text[|text| - 1] == '\\' by {
      assert text[|text| - 1..][0] == text[|text| - 1];
    }
    TrimSpaceKeepsLast(text);
  }

  /** A comment line is skipped, whether or not a continuation is
      pending. */
  lemma CommentSkipped(st: ScanState, text: string)
    requires CheckComment(text)
    ensures Step(st, text) == Next(st)
  {
    CommentIsNoHeader(text);
  }

  /** A line that leaves the logical line ending in a backslash is
      appended without a separator, the one backslash is dropped and
      nothing is committed. */
  lemma ContinuationAppends(st: ScanState, text: string)
    requires text != "" && !CheckComment(text)
    requires HasSuffix(st.pending + text, "\\")
    ensures var joined := st.pending + text;
      Step(st, text) == Next(st.(pending := joined[..|joined| - 1]))
    ensures var joined := st.pending + text;
      joined[..|joined| - 1] == st.pending + text[..|text| - 1]
  {
    var joined := st.pending + text;
    if st.pending == "" {
      assert joined == text;
      BackslashLineIsNoHeader(text);
    }
    assert joined[..|joined| - 1] == st.pending + text[..|text| - 1];
    assert Classify(st.pending, text) == Continue(st.pending + text[..|text| - 1]);
  }

  /** A completed logical line with an `=` upserts exactly one entry,
      `section + key`, and empties the pending line. */
  lemma CommitStoresOneEntry(st: ScanState, text: string)
    requires text != "" && !CheckComment(text)
    requires st.pending != "" || CheckSection(text) == ""
    requires !HasSuffix(st.pending + text, "\\")
    requires '=' in st.pending + text
    ensures CheckLine(st.pending + text).KeyValue?
    ensures var kv := CheckLine(st.pending + text);
      Step(st, text) == Next(ScanState("", st.section, st.entries[st.section + kv.key := kv.value]))
  {
    var joined := st.pending + text;
    var kv := CheckLine(joined);
    assert Classify(st.pending, text) == Commit(kv.key, kv.value);
  }

  /** A completed logical line without `=` aborts the read with
      `WRONG: ` and that line, and the map is left as it stands. */
  lemma MalformedLineAborts(st: ScanState, text: string)
    requires text != "" && !CheckComment(text)
    requires st.pending != "" || CheckSection(text) == ""
    requires !HasSuffix(st.pending + text, "\\")
    requires '=' !in st.pending + text
    ensures Step(st, text) == Abort(st.entries, "WRONG: " + st.pending + text)
  {
    var joined := st.pending + text;
    assert "WRONG: " + st.pending + text == "WRONG: " + joined;
    assert Classify(st.pending, text) == Fail("WRONG: " + joined);
  }

  /** Whatever the line, a step either leaves the map as it is or upserts
      the one entry its logical line names, and then empties the pending
      line; an abort never removes or changes an entry. */
  lemma StepChangesAtMostOneEntry(st: ScanState, text: string)
    ensures Step(st, text).Abort? ==> Step(st, text).entries == st.entries
    ensures Step(st, text).Next? ==>
      var s := Step(st, text).state;
      s.entries == st.entries
      || (s.pending == "" && CheckLine(st.pending + text).KeyValue?
          && s.entries == st.entries[st.section + CheckLine(st.pending + text).key
                                     := CheckLine(st.pending + text).value])
  {
    var joined := st.pending + text;
    if text == "" {
    } else if st.pending == "" && CheckSection(text) != "" {
    } else if CheckComment(text) {
    } else if HasSuffix(joined, "\\") {
    } else {
      var r := CheckLine(joined);
      if r.KeyValue? {
        assert Classify(st.pending, text) == Commit(r.key, r.value);
      }
    }
  }

  /** The reading loop takes the lines one at a time: a line that leads
      to the state `s` leaves the rest of the read to start from `s`. */
  lemma ScanNext(lines: seq<string>, i: nat, st: ScanState, s: ScanState)
    requires i < |lines| && Step(st, lines[i]) == Next(s)
    ensures Scan(lines[i..], st) == Scan(lines[i + 1..], s)
  {
    assert lines[i..][1..] == lines[i + 1..];
  }

  /** A line that aborts ends the read there. */
  lemma ScanStops(lines: seq<string>, i: nat, st: ScanState)
    requires i < |lines| && Step(st, lines[i]).Abort?
    ensures Scan(lines[i..], st) == Step(st, lines[i])
  {
  }

  /** What a read leaves behind: the map, and the error it returned. */
  datatype ReadOutcome = ReadOutcome(entries: map<string, string>, error: Option<string>)

  /** The reference definition of `Read` on the lines of a file and the map
      before the read. A pending continuation left at the end of the input
      is dropped and the read succeeds. */
  function Parse(lines: seq<string>, m: map<string, string>): ReadOutcome {
    match Scan(lines, Start(m))
    case Next(st) => ReadOutcome(st.entries, None)
    case Abort(entries, msg) => ReadOutcome(entries, Some(msg))
  }

  /** The configuration store: the name of its file and its entries. */
  class Config {
    const filename: string
    var config: map<string, string>

    /** `NewConfig`: a store for `filename` with no entries; nothing is read. */
    constructor (filename: string)
      ensures this.filename == filename && config == map[]
    {
      this.filename := filename;
      config := map[];
    }

    /** `Read`, on the physical lines of the file (terminators removed).
        Entries are written into `config` as they are committed; the first
        malformed logical line stops the read and nothing is rolled back. */
    method Read(lines: seq<string>) returns (err: Option<string>)
      modifies this
      ensures ReadOutcome(config, err) == Parse(lines, old(config))
    {
      var line := "";
      var section := "";
      var i := 0;
      while i < |lines|
        invariant 0 <= i <= |lines|
        invariant Scan(lines[i..], ScanState(line, section, config)) == Scan(lines, Start(old(config)))
      {
        ghost var st := ScanState(line, section, config);
        var e;
        line, section, e := ReadLine(lines[i], line, section);
        if e.Some? {
          err := e;
          ScanStops(lines, i, st);
          return;
        }
        ScanNext(lines, i, st, ScanState(line, section, config));
        i := i + 1;
      }
      err := None;
    }

    /** One iteration of the loop of `Read`, on the physical line `text`,
        the pending logical line `line` and the section prefix `section`:
        it changes the store, the pending line and the prefix as `Step`
        describes, or returns the error `Step` aborts with. */
    method ReadLine(text: string, line: string, section: string)
      returns (line': string, section': string, err: Option<string>)
      modifies this
      ensures Step(ScanState(line, section, old(config)), text)
           == if err.Some? then Abort(config, err.value) else Next(ScanState(line', section', config))
    {
      ghost var st := ScanState(line, section, config);
      line', section', err := line, section, None;
      if text == "" {
        EmptyLineSkipped(st);
        return;
      }
      if line == "" {
        var sec := CheckSection(text);
        if sec != "" {
          section' := sec + ".";
          SectionHeaderSetsPrefix(st, text);
          return;
        }
      }
      if CheckComment(text) {
        CommentSkipped(st, text);
        return;
      }
      line' := line + text;
      if HasSuffix(line', "\\") {
        line' := line'[..|line'| - 1];
        ContinuationAppends(st, text);
        return;
      }
      var result := CheckLine(line');
      if result.Malformed? {
        err := Some("WRONG: " + line');
        MalformedLineAborts(st, text);
        return;
      }
      CommitStoresOneEntry(st, text);
      config := config[section + result.key := result.value];
      line' := "";
    }

    /** `Get`: the stored value, or `""` when the key is absent. */
    function Get(key: string): (value: string)
      reads this
      ensures key in config ==> value == config[key]
      ensures key !in config ==> value == ""
    {
      if key in config then config[key] else ""
    }

    /** `Set`: stores `value` under `key`, replacing any earlier value. */
    method Set(key: string, value: string)
      modifies this
      ensures config == old(config)[key := value]
    {
      config := config[key := value];
    }

    /** `Add`: the same upsert as `Set`; an existing key is overwritten. */
    method Add(key: string, value: string)
      modifies this
      ensures config == old(config)[key := value]
    {
      config := config[key := value];
    }

    /** `Del`: removes `key` if present; every other entry stays. */
    method Del(key: string)
      modifies this
      ensures config == old(config) - {key}
    {
      config := config - {key};
    }
  }
}
