/**
 * The line scan of `read_file`: it walks the file's lines in order, carrying
 * the open section and the section registry (section name to friendly name),
 * and collects one raw entry per decoded `key=value` line.
 */
module LineScan {
  import opened Wrappers
  import opened Text
  import opened Model
  import opened Decode

  /** What the scan carries from line to line. */
  datatype ScanState = ScanState(section: Option<string>, names: map<string, string>, entries: seq<Shortcut>)

  const Start := ScanState(None, map[], [])

  /**
   * A `_k_friendly_name` directive relabels the open section. Before any
   * header the registry gets a key for "no section", which no later lookup
   * can ask for; the string-keyed registry here leaves that key out.
   */
  function Rename(names: map<string, string>, section: Option<string>, name: string): map<string, string> {
    if section.Some? then names[section.value := name] else names
  }

  /** The effect of the line at position `index` (counted from 0). */
  function Step(st: ScanState, line: string, index: nat): Result<ScanState, Error> {
    match ClassifyLine(line)
    case Blank => Success(st)
    case Header(name) => Success(ScanState(Some(name), st.names[name := name], st.entries))
    case Malformed => Failure(InvalidLine(index + 1, line))
    case Pair(key, value) =>
      match ClassifyKey(key)
      case FriendlyName => Success(st.(names := Rename(st.names, st.section, value)))
      case UnknownDirective => Success(st)
      case _ =>
        match DecodeEntry(st.section, key, value)
        case Failure(e) => Failure(e)
        case Success(entry) => Success(st.(entries := st.entries + [entry]))
  }

  /** The scan of `lines[i..]` from state `st`; the first failing line stops it. */
  function ScanFrom(st: ScanState, lines: seq<string>, i: nat): Result<ScanState, Error>
    requires i <= |lines|
    decreases |lines| - i
  {
    if i == |lines| then Success(st)
    else match Step(st, lines[i], i)
      case Failure(e) => Failure(e)
      case Success(next) => ScanFrom(next, lines, i + 1)
  }

  function Scan(lines: seq<string>): Result<ScanState, Error> {
    ScanFrom(Start, lines, 0)
  }

  /**
   * The body of the scan loop for the line at position `index`: the open
   * section, the registry and the entries after it, or the error that stops
   * the scan.
   */
  method ReadLine(section: Option<string>, sectionNames: map<string, string>, result: seq<Shortcut>, line: string, index: nat)
    returns (outcome: Result<ScanState, Error>)
    ensures outcome == Step(ScanState(section, sectionNames, result), line, index)
  {
    match ClassifyLine(line) {
      case Blank =>
        return Success(ScanState(section, sectionNames, result));
      case Header(name) =>
        return Success(ScanState(Some(name), sectionNames[name := name], result));
      case Malformed =>
        return Failure(InvalidLine(index + 1, line));
      case Pair(command, value) =>
        var kind := ClassifyKey(command);
        if kind == FriendlyName {
          var names := sectionNames;
          if section.Some? {
            names := names[section.value := value];
          }
          return Success(ScanState(section, names, result));
        } else if kind == UnknownDirective {
          return Success(ScanState(section, sectionNames, result));
        }
        var entry := DecodeValue(section, command, value);
        if entry.Failure? {
          return Failure(entry.error);
        }
        return Success(ScanState(section, sectionNames, result + [entry.value]));
    }
  }

  /**
   * The loop of `read_file` that reads the configuration: it reassigns the
   * open section, updates the registry in place and appends entries, and stops
   * at the first fatal line.
   */
  method ReadEntries(lines: seq<string>) returns (outcome: Result<ScanState, Error>)
    ensures outcome == Scan(lines)
  {
    var section: Option<string> := None;
    var sectionNames: map<string, string> := map[];
    var result: seq<Shortcut> := [];
    var i := 0;
    while i < |lines|
      invariant 0 <= i <= |lines|
      invariant Scan(lines) == ScanFrom(ScanState(section, sectionNames, result), lines, i)
    {
      var next := ReadLine(section, sectionNames, result, lines[i], i);
      if next.Failure? {
        return Failure(next.error);
      }
      section, sectionNames, result := next.value.section, next.value.names, next.value.entries;
      i := i + 1;
    }
    return Success(ScanState(section, sectionNames, result));
  }

  /** The scan of the lines from position `j` up to, not including, position `i`, from state `st`. */
  function ScanSpan(st: ScanState, lines: seq<string>, j: nat, i: nat): Result<ScanState, Error>
    requires j <= i <= |lines|
    decreases i - j
  {
    if j == i then Success(st)
    else match Step(st, lines[j], j)
      case Failure(e) => Failure(e)
      case Success(next) => ScanSpan(next, lines, j + 1, i)
  }

  /**
   * Scanning the lines from position `j` on is scanning those before
   * position `i` and then the rest from the state they leave.
   */
  lemma {:induction false} ScanPrefix(st0: ScanState, lines: seq<string>, j: nat, i: nat, st: ScanState)
    requires j <= i <= |lines| && ScanSpan(st0, lines, j, i) == Success(st)
    ensures ScanFrom(st0, lines, j) == ScanFrom(st, lines, i)
    decreases i - j
  {
    if j < i {
      ScanPrefix(Step(st0, lines[j], j).value, lines, j + 1, i, st);
    }
  }

  /**
   * What every raw entry satisfies once read: its section is registered, it
   * has a token, it has no component label yet, and a launcher entry's
   * section name holds '[' and its action label is its command.
   */
  predicate GoodEntry(e: Shortcut, names: map<string, string>) {
    && (e.component.Some? ==> e.component.value in names)
    && e.shortcuts != []
    && e.prettyComponent.None?
    && (GrammarOf(e.component) == LauncherGrammar ==> '[' in e.component.value && e.prettyCommand == e.command)
  }

  predicate Good(st: ScanState) {
    && (st.section.Some? ==> st.section.value in st.names)
    && forall k | 0 <= k < |st.entries| :: GoodEntry(st.entries[k], st.names)
  }

  /**
   * One line keeps the invariant, never forgets a registered section and only
   * ever appends one entry, for the command on that line.
   */
  lemma StepGood(st: ScanState, line: string, index: nat)
    requires Good(st) && Step(st, line, index).Success?
    ensures var next := Step(st, line, index).value;
      && Good(next)
      && st.names.Keys <= next.names.Keys
      && next.entries[..|st.entries|] == st.entries
      && |st.entries| <= |next.entries| <= |st.entries| + 1
      && (|next.entries| > |st.entries| ==>
            ClassifyLine(line).Pair? && next.entries[|st.entries|].command == ClassifyLine(line).key)
  {
    var next := Step(st, line, index).value;
    var k := ClassifyLine(line);
    if k.Blank? {
      assert next == st;
    } else if k.Header? {
      assert next == ScanState(Some(k.name), st.names[k.name := k.name], st.entries);
      assert next.entries[..|st.entries|] == st.entries;
    } else if k.Pair? && ClassifyKey(k.key) == FriendlyName {
      assert next == st.(names := Rename(st.names, st.section, k.value));
      assert next.entries[..|st.entries|] == st.entries;
    } else if k.Pair? && ClassifyKey(k.key) == UnknownDirective {
      assert next == st;
    } else if k.Pair? {
      var e := DecodeEntry(st.section, k.key, k.value).value;
      assert next == st.(entries := st.entries + [e]);
      assert next.entries[..|st.entries|] == st.entries;
      forall j | 0 <= j < |next.entries| ensures GoodEntry(next.entries[j], next.names) {
        if j < |st.entries| {
          assert next.entries[j] == st.entries[j];
        }
      }
    }
  }

  /**
   * What one line does to the state: a header opens its section and
   * registers it under its own name; only a header moves the open section;
   * only a header or a friendly-name directive touches the registry; and an
   * entry comes out exactly for a `key=value` line whose key is `_launch` or
   * no directive at all.
   */
  lemma StepEffect(st: ScanState, line: string, index: nat)
    requires Step(st, line, index).Success?
    ensures var next := Step(st, line, index).value;
      var k := ClassifyLine(line);
      && (k.Header? ==> next.section == Some(k.name) && k.name in next.names && next.names[k.name] == k.name)
      && (!k.Header? ==> next.section == st.section)
      && (next.names != st.names ==> k.Header? || (k.Pair? && ClassifyKey(k.key) == FriendlyName))
      && (|next.entries| != |st.entries| <==> k.Pair? && (ClassifyKey(k.key) == Launch || ClassifyKey(k.key) == Command))
  {
  }

  /**
   * The whole scan keeps the invariant: every entry's section is in the final
   * registry, every entry has a token, and every launcher section name holds '['.
   */
  lemma {:induction false} ScanFromGood(st: ScanState, lines: seq<string>, i: nat)
    requires i <= |lines| && Good(st) && ScanFrom(st, lines, i).Success?
    ensures Good(ScanFrom(st, lines, i).value)
    ensures st.names.Keys <= ScanFrom(st, lines, i).value.names.Keys
    decreases |lines| - i
  {
    if i < |lines| {
      StepGood(st, lines[i], i);
      ScanFromGood(Step(st, lines[i], i).value, lines, i + 1);
    }
  }

  lemma ScanGood(lines: seq<string>)
    requires Scan(lines).Success?
    ensures Good(Scan(lines).value)
  {
    ScanFromGood(Start, lines, 0);
  }

  /**
   * A malformed line anywhere in the file is fatal: the scan fails (at that
   * line, or at an earlier fatal one) and no entry comes out.
   */
  lemma {:induction false} MalformedIsFatal(st: ScanState, lines: seq<string>, i: nat, j: nat)
    requires i <= j < |lines| && ClassifyLine(lines[j]).Malformed?
    ensures ScanFrom(st, lines, i).Failure?
    decreases j - i
  {
    if i < j && Step(st, lines[i], i).Success? {
      MalformedIsFatal(Step(st, lines[i], i).value, lines, i + 1, j);
    }
  }

  /** The line an `InvalidLine` error reports is the malformed line at that (1-based) number. */
  lemma {:induction false} InvalidLineLocated(st: ScanState, lines: seq<string>, i: nat, n: nat, l: string)
    requires i <= |lines| && ScanFrom(st, lines, i) == Failure(InvalidLine(n, l))
    ensures i < n <= |lines| && lines[n - 1] == l && ClassifyLine(l).Malformed?
    decreases |lines| - i
  {
    if Step(st, lines[i], i).Success? {
      InvalidLineLocated(Step(st, lines[i], i).value, lines, i + 1, n, l);
    }
  }

  /** The scan itself stops only on a malformed line, a launcher section without '[' or a value without a token. */
  lemma {:induction false} ScanErrors(st: ScanState, lines: seq<string>, i: nat)
    requires i <= |lines| && ScanFrom(st, lines, i).Failure?
    ensures ScanFrom(st, lines, i).error.InvalidLine?
      || ScanFrom(st, lines, i).error.LauncherWithoutBracket?
      || ScanFrom(st, lines, i).error.EmptyShortcuts?
    decreases |lines| - i
  {
    if Step(st, lines[i], i).Success? {
      ScanErrors(Step(st, lines[i], i).value, lines, i + 1);
    }
  }

  /** The line is a `_k_friendly_name` directive. */
  predicate IsFriendlyName(line: string) {
    ClassifyLine(line).Pair? && ClassifyLine(line).key == FriendlyNameKey
  }

  /**
   * The lines from `i` on never write the registry entry of section `s`: none
   * is a header `[s]`, and while `s` may still be open (`open`) every friendly
   * name directive comes after some header.
   */
  predicate KeepsName(lines: seq<string>, i: nat, s: string, open: bool)
    requires i <= |lines|
  {
    forall j | i <= j < |lines| ::
      && ClassifyLine(lines[j]) != Header(s)
      && (open && IsFriendlyName(lines[j]) ==> exists h | i <= h < j :: HeaderAt(lines, h))
  }

  /** Line `h` exists and is a section header. */
  predicate HeaderAt(lines: seq<string>, h: int) {
    0 <= h < |lines| && ClassifyLine(lines[h]).Header?
  }

  /** One line that is neither the header `[s]` nor, while `s` is open, a friendly name keeps `s`'s entry. */
  lemma StepKeepsName(st: ScanState, line: string, index: nat, s: string)
    requires s in st.names && Step(st, line, index).Success?
    requires ClassifyLine(line) != Header(s)
    requires st.section == Some(s) ==> !IsFriendlyName(line)
    ensures var next := Step(st, line, index).value;
      && s in next.names && next.names[s] == st.names[s]
      && (next.section == Some(s) ==> st.section == Some(s) && !ClassifyLine(line).Header?)
  {
    var next := Step(st, line, index).value;
    var k := ClassifyLine(line);
    if k.Header? {
      assert next == ScanState(Some(k.name), st.names[k.name := k.name], st.entries);
    } else if k.Pair? && ClassifyKey(k.key) == FriendlyName {
      assert next == st.(names := Rename(st.names, st.section, k.value));
    } else if k.Pair? && ClassifyKey(k.key) != UnknownDirective {
      assert next.names == st.names && next.section == st.section;
    } else {
      assert next == st;
    }
  }

  lemma {:induction false} NameKept(st: ScanState, lines: seq<string>, i: nat, s: string)
    requires i <= |lines| && s in st.names
    requires KeepsName(lines, i, s, st.section == Some(s))
    requires ScanFrom(st, lines, i).Success?
    ensures s in ScanFrom(st, lines, i).value.names
    ensures ScanFrom(st, lines, i).value.names[s] == st.names[s]
    decreases |lines| - i
  {
    if i < |lines| {
      var open := st.section == Some(s);
      assert ClassifyLine(lines[i]) != Header(s)
        && (open && IsFriendlyName(lines[i]) ==> exists h | i <= h < i :: HeaderAt(lines, h));
      StepKeepsName(st, lines[i], i, s);
      var next := Step(st, lines[i], i).value;
      forall j | i + 1 <= j < |lines| && next.section == Some(s) && IsFriendlyName(lines[j])
        ensures exists h | i + 1 <= h < j :: HeaderAt(lines, h)
      {
        var h :| i <= h < j && HeaderAt(lines, h);
        assert h != i;
      }
      NameKept(next, lines, i + 1, s);
    }
  }

  /**
   * A friendly name given while section `s` is open is the registry's final
   * word on `s`, unless a later line writes that entry again.
   */
  lemma FriendlyNameLasts(st: ScanState, lines: seq<string>, i: nat, s: string)
    requires i < |lines| && IsFriendlyName(lines[i]) && st.section == Some(s)
    requires KeepsName(lines, i + 1, s, true)
    requires ScanFrom(st, lines, i).Success?
    ensures s in ScanFrom(st, lines, i).value.names
    ensures ScanFrom(st, lines, i).value.names[s] == ClassifyLine(lines[i]).value
  {
    assert ClassifyKey(ClassifyLine(lines[i]).key) == FriendlyName;
    var next := Step(st, lines[i], i).value;
    NameKept(next, lines, i + 1, s);
  }
}
