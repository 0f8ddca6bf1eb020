/**
 * `read_file` as a whole: the line scan followed by canonicalisation. The
 * configuration arrives as its lines; `friendly` stands for the answers of
 * the friendly-name query (see module Canon).
 */
module Pipeline {
  import opened Wrappers
  import opened Text
  import opened Model
  import opened Decode
  import opened LineScan
  import opened Canon

  /** What `read_file` returns, or why it stops. */
  function Parse(lines: seq<string>, friendly: map<string, string>): Result<seq<Shortcut>, Error> {
    match Scan(lines)
    case Failure(e) => Failure(e)
    case Success(st) => Canonicalise(st.names, st.entries, friendly)
  }

  /** The body of `read_file` once the lines are read: the scan loop, then the canonicalisation loop. */
  method ReadFile(lines: seq<string>, friendly: map<string, string>) returns (outcome: Result<seq<Shortcut>, Error>)
    ensures outcome == Parse(lines, friendly)
  {
    var scanned := ReadEntries(lines);
    if scanned.Failure? {
      return Failure(scanned.error);
    }
    outcome := CanonicaliseEntries(scanned.value.names, scanned.value.entries, friendly);
  }

  /**
   * `read_file` stops for four reasons only: a malformed line, a launcher
   * section without '[', a value without a token, or an entry before any
   * section. A launcher section always names a desktop file by the time it is
   * canonicalised, so that failure never happens.
   */
  lemma ParseErrors(lines: seq<string>, friendly: map<string, string>)
    requires Parse(lines, friendly).Failure?
    ensures var e := Parse(lines, friendly).error;
      e.InvalidLine? || e.LauncherWithoutBracket? || e.EmptyShortcuts? || e.NoSection?
  {
    match Scan(lines)
    case Failure(_) =>
      ScanErrors(Start, lines, 0);
    case Success(st) =>
      ScanGood(lines);
      CanonicaliseSpec(st.names, st.entries, friendly);
      var k :| 0 <= k < |st.entries| && FirstError(st.entries, 0, k)
        && Parse(lines, friendly).error == EntryError(st.entries[k]).value;
      var e := st.entries[k];
      assert GoodEntry(e, st.names);
      if e.component.Some? {
        DesktopFileSpec(e.component.value);
      }
  }

  /**
   * Once the scan succeeds, `read_file` succeeds exactly when every entry has
   * a section; it then returns one record per entry, in order, with the same
   * command and the entry's cleaned tokens, of which there is at least one.
   */
  lemma ParseRecords(lines: seq<string>, friendly: map<string, string>)
    requires Scan(lines).Success?
    ensures var es := Scan(lines).value.entries;
      var r := Parse(lines, friendly);
      && (r.Success? <==> forall k | 0 <= k < |es| :: es[k].component.Some?)
      && (r.Success? ==>
            && |r.value| == |es|
            && forall k | 0 <= k < |es| ::
                 && r.value[k].command == es[k].command
                 && r.value[k].shortcuts == CleanShortcuts(es[k].shortcuts)
                 && r.value[k].shortcuts != [])
  {
    var st := Scan(lines).value;
    ScanGood(lines);
    CanonicaliseSpec(st.names, st.entries, friendly);
    forall k | 0 <= k < |st.entries| ensures EntryError(st.entries[k]).None? <==> st.entries[k].component.Some? {
      var e := st.entries[k];
      CanonEntrySpec(RegistryAfter(st.names, st.entries[..k]), e, friendly);
      assert GoodEntry(e, st.names);
      if e.component.Some? {
        DesktopFileSpec(e.component.value);
      }
    }
  }

  /**
   * The component label of an ordinary entry is its section's registry entry
   * as the whole scan left it, so a friendly name given anywhere in a section
   * labels all of that section's entries, earlier ones included. This holds
   * unless an earlier launcher's component id equals the section name, in
   * which case that launcher's desktop file has overwritten the entry.
   */
  lemma OrdinaryComponentLabel(lines: seq<string>, friendly: map<string, string>, k: nat)
    requires Parse(lines, friendly).Success? && Scan(lines).Success?
    requires var es := Scan(lines).value.entries;
      k < |es| && es[k].component.Some? && GrammarOf(es[k].component) == OrdinaryGrammar
      && forall j | 0 <= j < k :: WrittenId(es[j]) != es[k].component
    ensures var st := Scan(lines).value;
      var c := st.entries[k].component.value;
      && |Parse(lines, friendly).value| == |st.entries|
      && c in st.names
      && Parse(lines, friendly).value[k].component == Some(c)
      && Parse(lines, friendly).value[k].prettyComponent == Some(st.names[c])
  {
    var st := Scan(lines).value;
    var es := st.entries;
    ParseRecords(lines, friendly);
    ScanGood(lines);
    CanonicaliseSpec(st.names, es, friendly);
    var e := es[k];
    assert GoodEntry(e, st.names);
    var c := e.component.value;
    var front := es[..k];
    CanonEntrySpec(RegistryAfter(st.names, front), e, friendly);
    forall j | 0 <= j < |front| ensures WrittenId(front[j]) != Some(c) {
      assert front[j] == es[j];
    }
    RegistryKept(st.names, front, c);
  }

  /**
   * A friendly name given while section `s` is open labels every ordinary
   * entry of `s`, those read before it included, provided no later line
   * rewrites `s`'s registry entry and no launcher's component id equals `s`.
   */
  lemma FriendlyNameLabelsSection(lines: seq<string>, friendly: map<string, string>, i: nat, st: ScanState, s: string)
    requires i < |lines| && ScanSpan(Start, lines, 0, i) == Success(st) && st.section == Some(s)
    requires IsFriendlyName(lines[i]) && KeepsName(lines, i + 1, s, true)
    requires GrammarOf(Some(s)) == OrdinaryGrammar
    requires Parse(lines, friendly).Success? && Scan(lines).Success?
    requires var es := Scan(lines).value.entries; forall j | 0 <= j < |es| :: WrittenId(es[j]) != Some(s)
    ensures var es := Scan(lines).value.entries;
      var rs := Parse(lines, friendly).value;
      && |rs| == |es|
      && forall k | 0 <= k < |es| && es[k].component == Some(s) ::
           rs[k].component == Some(s) && rs[k].prettyComponent == Some(ClassifyLine(lines[i]).value)
  {
    var es := Scan(lines).value.entries;
    ScanPrefix(Start, lines, 0, i, st);
    FriendlyNameLasts(st, lines, i, s);
    ParseRecords(lines, friendly);
    forall k | 0 <= k < |es| && es[k].component == Some(s)
      ensures Parse(lines, friendly).value[k].component == Some(s)
      ensures Parse(lines, friendly).value[k].prettyComponent == Some(ClassifyLine(lines[i]).value)
    {
      OrdinaryComponentLabel(lines, friendly, k);
    }
  }

  /**
   * A launcher's record carries the normalised id of its desktop file, free
   * of '.' and '-', is labelled with that desktop file, and takes the
   * friendly-name answer for its id, stripped, when there is one.
   */
  lemma LauncherLabel(lines: seq<string>, friendly: map<string, string>, k: nat)
    requires Parse(lines, friendly).Success? && Scan(lines).Success?
    requires var es := Scan(lines).value.entries; k < |es| && GrammarOf(es[k].component) == LauncherGrammar
    ensures var e := Scan(lines).value.entries[k];
      var d := DesktopFile(e.component.value);
      && |Parse(lines, friendly).value| == |Scan(lines).value.entries|
      && d.Some?
      && var rec := Parse(lines, friendly).value[k];
      && rec.component == Some(NormalizeId(d.value))
      && '.' !in rec.component.value && '-' !in rec.component.value
      && rec.prettyComponent == d
      && rec.prettyCommand == if NormalizeId(d.value) in friendly then Strip(friendly[NormalizeId(d.value)]) else e.command
  {
    var st := Scan(lines).value;
    var es := st.entries;
    ParseRecords(lines, friendly);
    ScanGood(lines);
    CanonicaliseSpec(st.names, es, friendly);
    var e := es[k];
    assert GoodEntry(e, st.names);
    DesktopFileSpec(e.component.value);
    var names := RegistryAfter(st.names, es[..k]);
    assert CanonEntry(names, e, friendly) == Success(Parse(lines, friendly).value[k]);
    LauncherRecord(names, e, friendly);
  }

  /** A malformed line anywhere in the configuration makes `read_file` fail. */
  lemma MalformedLineFails(lines: seq<string>, friendly: map<string, string>, j: nat)
    requires j < |lines| && ClassifyLine(lines[j]).Malformed?
    ensures Parse(lines, friendly).Failure?
  {
    MalformedIsFatal(Start, lines, 0, j);
  }
}
