/**
 * The second half of `read_file`: every raw entry gets its canonical component
 * id, its component label from the section registry, its cleaned shortcut
 * tokens and, for desktop launchers, the friendly name KDE's global-shortcut
 * daemon reports.
 *
 * The daemon is not called here: `friendly` maps a normalised component id to
 * what the friendly-name query prints; an id that is not a key stands for a
 * query that fails, which leaves the label as it was.
 */
module Canon {
  import opened Wrappers
  import opened Text
  import opened Model
  import opened Decode

  /** The desktop file a launcher section names: the text after its first '[', up to the next '['. */
  function DesktopFile(section: string): Option<string> {
    var pieces := Split(section, "[");
    if |pieces| < 2 then None else Some(pieces[1])
  }

  /**
   * A desktop file is found exactly when the section holds a '['; it then
   * starts right after the first '[', holds no '[' itself, and runs to the
   * end of the section or up to the next '['.
   */
  lemma DesktopFileSpec(section: string)
    ensures DesktopFile(section).Some? <==> '[' in section
    ensures DesktopFile(section).Some? ==>
      var d := DesktopFile(section).value;
      exists i: nat :: BracketAt(section, i) && '[' !in d
        && (section[i + 1..] == d || StartsWith(section[i + 1..], d + "["))
  {
    SeveralPieces(section, '[');
    if '[' in section {
      match FindFrom(section, "[", 0)
      case None =>
        FindCharNone(section, '[');
      case Some(i) =>
        FindCharSome(section, '[', i);
        var rest := section[i + 1..];
        assert Split(section, "[")[1] == Split(rest, "[")[0];
        FirstPiece(rest, '[');
        assert BracketAt(section, i);
    }
  }

  /** Index `i` holds the first '[' of `s`. */
  predicate BracketAt(s: string, i: nat) {
    i < |s| && s[i] == '[' && '[' !in s[..i]
  }

  /** The component id of a launcher: its desktop file with every '.' and '-' turned into '_'. */
  function NormalizeId(desktopFile: string): string {
    Replace(Replace(desktopFile, ".", "_"), "-", "_")
  }

  /**
   * Normalising keeps the length, turns each '.' and '-' into '_' and leaves
   * every other character in place, so the id holds neither '.' nor '-'.
   */
  lemma NormalizeIdSpec(d: string)
    ensures var id := NormalizeId(d);
      && |id| == |d|
      && (forall k | 0 <= k < |d| :: id[k] == if d[k] == '.' || d[k] == '-' then '_' else d[k])
      && '.' !in id && '-' !in id
  {
    ReplaceChar(d, '.', '_');
    ReplaceChar(MapChar(d, '.', '_'), '-', '_');
  }

  /** No token occurs twice. */
  predicate NoDup(xs: seq<string>) {
    forall i, j | 0 <= i < j < |xs| :: xs[i] != xs[j]
  }

  /**
   * The distinct tokens of `xs`. The parser takes them from a set, whose
   * order is not defined; this model keeps the first occurrence of each.
   */
  function Dedup(xs: seq<string>): (r: seq<string>)
    ensures NoDup(r)
    ensures forall x :: x in r <==> x in xs
    decreases |xs|
  {
    if xs == [] then []
    else
      var d := Dedup(xs[..|xs| - 1]);
      var x := xs[|xs| - 1];
      assert xs == xs[..|xs| - 1] + [x];
      if x in d then d else d + [x]
  }

  /** Dropping a token keeps a duplicate-free list duplicate-free. */
  lemma {:induction false} WithoutNoDup(xs: seq<string>, t: string)
    requires NoDup(xs)
    ensures NoDup(Without(xs, t))
    decreases |xs|
  {
    if xs != [] {
      WithoutNoDup(xs[1..], t);
      var rest := Without(xs[1..], t);
      if xs[0] != t {
        assert xs[0] !in xs[1..];
        assert Without(xs, t) == [xs[0]] + rest;
      } else {
        assert Without(xs, t) == rest;
      }
    }
  }

  /** `xs` holds at least two different tokens. */
  predicate Several(xs: seq<string>) {
    exists a, b | a in xs && b in xs :: a != b
  }

  /**
   * The cleaned token list of an entry: its distinct tokens, without "none"
   * when there is more than one distinct token. The result has no
   * duplicate; a token is in it exactly when it is in the input and is not a
   * "none" dropped beside other tokens; a non-empty input keeps a token; and
   * "none" survives only on its own.
   */
  function CleanShortcuts(xs: seq<string>): (r: seq<string>)
    ensures NoDup(r)
    ensures forall x :: x in r <==> x in xs && (x != Unbound || !Several(xs))
    ensures xs != [] ==> r != []
    ensures Unbound in r ==> r == [Unbound]
  {
    var d := Dedup(xs);
    assert Several(xs) <==> |d| > 1 by {
      if |d| > 1 {
        assert d[0] in xs && d[1] in xs && d[0] != d[1];
      }
      if Several(xs) {
        var a, b :| a in xs && b in xs && a != b;
        assert a in d && b in d;
      }
    }
    if |d| > 1 then
      WithoutNoDup(d, Unbound);
      assert d[0] != Unbound || d[1] != Unbound;
      assert d[0] in Without(d, Unbound) || d[1] in Without(d, Unbound);
      Without(d, Unbound)
    else
      assert xs != [] ==> xs[0] in d;
      d
  }

  /** Why an entry cannot be canonicalised, if it cannot. */
  function EntryError(e: Shortcut): Option<Error> {
    if e.component.None? then Some(NoSection(e.command))
    else if GrammarOf(e.component) == LauncherGrammar && DesktopFile(e.component.value).None? then
      Some(NoDesktopFile(e.component.value))
    else None
  }

  /** The registry write an entry makes: a launcher maps its component id to its desktop file. */
  function Record(names: map<string, string>, e: Shortcut): map<string, string> {
    if GrammarOf(e.component) == LauncherGrammar && DesktopFile(e.component.value).Some? then
      var d := DesktopFile(e.component.value).value;
      names[NormalizeId(d) := d]
    else names
  }

  /** The registry once the entries `es` have been canonicalised, in order. */
  function RegistryAfter(names: map<string, string>, es: seq<Shortcut>): map<string, string>
    decreases |es|
  {
    if es == [] then names else Record(RegistryAfter(names, es[..|es| - 1]), es[|es| - 1])
  }

  /** Python's `d.get(key, default)`. */
  function Get(names: map<string, string>, key: string, default: string): string {
    if key in names then names[key] else default
  }

  /** Canonicalises one entry against the registry `names` as it stands before it. */
  function CanonEntry(names: map<string, string>, e: Shortcut, friendly: map<string, string>): Result<Shortcut, Error>
  {
    match e.component
    case None => Failure(NoSection(e.command))
    case Some(section) =>
      if GrammarOf(e.component) == LauncherGrammar then
        match DesktopFile(section)
        case None => Failure(NoDesktopFile(section))
        case Some(d) =>
          var id := NormalizeId(d);
          var prettyCommand := if id in friendly then Strip(friendly[id]) else e.prettyCommand;
          Success(Shortcut(Some(id), Some(d), e.command, CleanShortcuts(e.shortcuts), prettyCommand))
      else
        Success(Shortcut(e.component, Some(Get(names, section, section)), e.command, CleanShortcuts(e.shortcuts), e.prettyCommand))
  }

  /**
   * An entry fails exactly when it has no section, or is a launcher without a
   * desktop file; otherwise the command is kept, the tokens are cleaned, the
   * component label is what the registry, with this entry's own write, holds
   * for the component id (the id itself when absent), and the action label
   * changes only for a launcher whose friendly-name query succeeds.
   */
  lemma CanonEntrySpec(names: map<string, string>, e: Shortcut, friendly: map<string, string>)
    ensures var r := CanonEntry(names, e, friendly);
      && (r.Failure? <==> EntryError(e).Some?)
      && (r.Failure? ==> r.error == EntryError(e).value)
      && (r.Success? ==>
            && r.value.component.Some?
            && r.value.command == e.command
            && r.value.shortcuts == CleanShortcuts(e.shortcuts)
            && r.value.prettyComponent == Some(Get(Record(names, e), r.value.component.value, r.value.component.value)))
      && (r.Success? && r.value.prettyCommand != e.prettyCommand ==>
            GrammarOf(e.component) == LauncherGrammar && r.value.component.value in friendly)
  {
  }

  /** An entry is canonicalised exactly when it has no error, and otherwise fails with that error. */
  lemma CanonEntryOk(names: map<string, string>, e: Shortcut, friendly: map<string, string>)
    ensures CanonEntry(names, e, friendly).Success? <==> EntryError(e).None?
    ensures CanonEntry(names, e, friendly).Failure? ==> CanonEntry(names, e, friendly).error == EntryError(e).value
  {
  }

  /** The loop over the entries from position `i` on, with the registry and the records made so far. */
  function CanonFrom(names: map<string, string>, es: seq<Shortcut>, i: nat, friendly: map<string, string>, done: seq<Shortcut>): Result<seq<Shortcut>, Error>
    requires i <= |es|
    decreases |es| - i
  {
    if i == |es| then Success(done)
    else match CanonEntry(names, es[i], friendly)
      case Failure(e) => Failure(e)
      case Success(c) => CanonFrom(Record(names, es[i]), es, i + 1, friendly, done + [c])
  }

  function Canonicalise(names: map<string, string>, es: seq<Shortcut>, friendly: map<string, string>): Result<seq<Shortcut>, Error> {
    CanonFrom(names, es, 0, friendly, [])
  }

  /**
   * The body of the canonicalisation loop for one entry: its record, or the
   * error that stops the loop, and the registry after the entry's write.
   */
  method CanonicaliseEntry(sectionNames: map<string, string>, shortcut: Shortcut, friendly: map<string, string>)
    returns (outcome: Result<Shortcut, Error>, names: map<string, string>)
    ensures outcome == CanonEntry(sectionNames, shortcut, friendly)
    ensures outcome.Success? ==> names == Record(sectionNames, shortcut)
  {
    names := sectionNames;
    if shortcut.component.None? {
      return Failure(NoSection(shortcut.command)), names;
    }
    var sectionName := shortcut.component.value;
    var prettyCommand := shortcut.prettyCommand;
    var cleaned := CleanShortcuts(shortcut.shortcuts);
    if StartsWith(sectionName, LauncherPrefix) {
      var pieces := Split(sectionName, "[");
      if |pieces| < 2 {
        return Failure(NoDesktopFile(sectionName)), names;
      }
      var desktopFile := pieces[1];
      sectionName := NormalizeId(desktopFile);
      if sectionName in friendly {
        prettyCommand := Strip(friendly[sectionName]);
      }
      names := names[sectionName := desktopFile];
      LauncherEntry(sectionNames, shortcut, friendly, desktopFile);
    } else {
      OrdinaryEntry(sectionNames, shortcut, friendly);
    }
    outcome := Success(Shortcut(Some(sectionName), Some(Get(names, sectionName, sectionName)), shortcut.command, cleaned, prettyCommand));
  }

  /**
   * The canonicalisation loop of `read_file`: it appends one record per
   * entry and writes each launcher's desktop file into the registry.
   */
  method CanonicaliseEntries(sectionNames: map<string, string>, entries: seq<Shortcut>, friendly: map<string, string>)
    returns (outcome: Result<seq<Shortcut>, Error>)
    ensures outcome == Canonicalise(sectionNames, entries, friendly)
  {
    var names := sectionNames;
    var realResult: seq<Shortcut> := [];
    var i := 0;
    while i < |entries|
      invariant 0 <= i <= |entries|
      invariant Canonicalise(sectionNames, entries, friendly) == CanonFrom(names, entries, i, friendly, realResult)
    {
      var record, written := CanonicaliseEntry(names, entries[i], friendly);
      if record.Failure? {
        return Failure(record.error);
      }
      names := written;
      realResult := realResult + [record.value];
      i := i + 1;
    }
    return Success(realResult);
  }

  /** How a launcher entry with a desktop file is canonicalised, and the registry write it makes. */
  lemma LauncherEntry(names: map<string, string>, e: Shortcut, friendly: map<string, string>, d: string)
    requires e.component.Some? && StartsWith(e.component.value, LauncherPrefix)
    requires |Split(e.component.value, "[")| >= 2 && d == Split(e.component.value, "[")[1]
    ensures var id := NormalizeId(d);
      && CanonEntry(names, e, friendly) == Success(Shortcut(Some(id), Some(Get(names[id := d], id, id)), e.command,
           CleanShortcuts(e.shortcuts), if id in friendly then Strip(friendly[id]) else e.prettyCommand))
      && Record(names, e) == names[id := d]
  {
  }

  /** How an entry of an ordinary section is canonicalised; it leaves the registry alone. */
  lemma OrdinaryEntry(names: map<string, string>, e: Shortcut, friendly: map<string, string>)
    requires e.component.Some? && !StartsWith(e.component.value, LauncherPrefix)
    ensures var c := e.component.value;
      && CanonEntry(names, e, friendly) == Success(Shortcut(Some(c), Some(Get(names, c, c)), e.command,
           CleanShortcuts(e.shortcuts), e.prettyCommand))
      && Record(names, e) == names
  {
  }

  /** The loop from position `i` on succeeds exactly when no entry from there on has an error. */
  lemma {:induction false} CanonFromOk(names: map<string, string>, es: seq<Shortcut>, i: nat, friendly: map<string, string>, done: seq<Shortcut>)
    requires i <= |es|
    ensures CanonFrom(names, es, i, friendly, done).Success? <==> forall k | i <= k < |es| :: EntryError(es[k]).None?
    decreases |es| - i
  {
    if i < |es| {
      var c := CanonEntry(names, es[i], friendly);
      CanonEntryOk(names, es[i], friendly);
      if c.Success? {
        CanonFromOk(Record(names, es[i]), es, i + 1, friendly, done + [c.value]);
      }
    }
  }

  /**
   * When the loop from position `i` succeeds, it keeps the records made so
   * far and adds one per remaining entry, each one the entry canonicalised
   * against the registry as the earlier entries left it.
   */
  lemma {:induction false} CanonFromRecords(names0: map<string, string>, es: seq<Shortcut>, i: nat, friendly: map<string, string>, done: seq<Shortcut>)
    requires i <= |es| && |done| == i
    requires forall k | i <= k < |es| :: EntryError(es[k]).None?
    ensures var r := CanonFrom(RegistryAfter(names0, es[..i]), es, i, friendly, done);
      && r.Success? && |r.value| == |es| && r.value[..i] == done
      && forall k | i <= k < |es| :: CanonEntry(RegistryAfter(names0, es[..k]), es[k], friendly) == Success(r.value[k])
    decreases |es| - i
  {
    if i < |es| {
      var names := RegistryAfter(names0, es[..i]);
      var next := RegistryAfter(names0, es[..i + 1]);
      assert next == Record(names, es[i]) by {
        assert es[..i + 1][..i] == es[..i];
      }
      CanonEntryOk(names, es[i], friendly);
      var c := CanonEntry(names, es[i], friendly).value;
      assert CanonFrom(names, es, i, friendly, done) == CanonFrom(next, es, i + 1, friendly, done + [c]);
      CanonFromRecords(names0, es, i + 1, friendly, done + [c]);
      var out := CanonFrom(next, es, i + 1, friendly, done + [c]).value;
      assert out[..i + 1] == done + [c];
      assert out[..i] == done by {
        assert out[..i] == out[..i + 1][..i];
      }
      forall k | i <= k < |es|
        ensures CanonEntry(RegistryAfter(names0, es[..k]), es[k], friendly) == Success(out[k])
      {
        if k == i {
          assert out[i] == (done + [c])[i];
        }
      }
    }
  }

  /** When the loop from position `i` fails, it fails with the error of the first entry from there on that has one. */
  lemma {:induction false} CanonFromError(names: map<string, string>, es: seq<Shortcut>, i: nat, friendly: map<string, string>, done: seq<Shortcut>)
    requires i <= |es| && CanonFrom(names, es, i, friendly, done).Failure?
    ensures exists k | i <= k < |es| :: FirstError(es, i, k) && CanonFrom(names, es, i, friendly, done).error == EntryError(es[k]).value
    decreases |es| - i
  {
    var c := CanonEntry(names, es[i], friendly);
    CanonEntryOk(names, es[i], friendly);
    if c.Success? {
      CanonFromError(Record(names, es[i]), es, i + 1, friendly, done + [c.value]);
      var k :| i + 1 <= k < |es| && FirstError(es, i + 1, k)
        && CanonFrom(Record(names, es[i]), es, i + 1, friendly, done + [c.value]).error == EntryError(es[k]).value;
      assert FirstError(es, i, k);
    } else {
      assert FirstError(es, i, i);
    }
  }

  /** Entry `k` is the first one at or after `i` with an error. */
  predicate FirstError(es: seq<Shortcut>, i: nat, k: nat) {
    && i <= k < |es| && EntryError(es[k]).Some?
    && forall j | i <= j < k :: EntryError(es[j]).None?
  }

  /**
   * Canonicalisation succeeds exactly when no entry has an error, and then
   * yields one record per entry, in order, each one the entry canonicalised
   * against the registry as the earlier entries left it. Otherwise it stops
   * with the error of the first entry that has one.
   */
  lemma CanonicaliseSpec(names: map<string, string>, es: seq<Shortcut>, friendly: map<string, string>)
    ensures var r := Canonicalise(names, es, friendly);
      && (r.Success? <==> forall k | 0 <= k < |es| :: EntryError(es[k]).None?)
      && (r.Success? ==>
            && |r.value| == |es|
            && forall k | 0 <= k < |es| :: CanonEntry(RegistryAfter(names, es[..k]), es[k], friendly) == Success(r.value[k]))
      && (r.Failure? ==> exists k | 0 <= k < |es| :: FirstError(es, 0, k) && r.error == EntryError(es[k]).value)
  {
    assert es[..0] == [];
    CanonFromOk(names, es, 0, friendly, []);
    if forall k | 0 <= k < |es| :: EntryError(es[k]).None? {
      CanonFromRecords(names, es, 0, friendly, []);
    } else {
      CanonFromError(names, es, 0, friendly, []);
    }
  }

  /** The id a launcher entry writes into the registry, if it writes one. */
  function WrittenId(e: Shortcut): Option<string> {
    if GrammarOf(e.component) == LauncherGrammar && DesktopFile(e.component.value).Some? then
      Some(NormalizeId(DesktopFile(e.component.value).value))
    else None
  }

  /**
   * Canonicalisation only ever adds keys to the registry, and the entry for a
   * key that no launcher id among `es` equals stays as it was.
   */
  lemma {:induction false} RegistryKept(names: map<string, string>, es: seq<Shortcut>, s: string)
    ensures names.Keys <= RegistryAfter(names, es).Keys
    ensures s in names && (forall k | 0 <= k < |es| :: WrittenId(es[k]) != Some(s)) ==>
      RegistryAfter(names, es)[s] == names[s]
    decreases |es|
  {
    if es != [] {
      var front := es[..|es| - 1];
      RegistryKept(names, front, s);
      if s in names && (forall k | 0 <= k < |es| :: WrittenId(es[k]) != Some(s)) {
        assert forall k | 0 <= k < |front| :: WrittenId(front[k]) != Some(s) by {
          forall k | 0 <= k < |front| ensures WrittenId(front[k]) != Some(s) {
            assert front[k] == es[k];
          }
        }
        assert WrittenId(es[|es| - 1]) != Some(s);
      }
    }
  }

  /**
   * A launcher's record carries its normalised id, free of '.' and '-', and
   * is labelled with its desktop file.
   */
  lemma LauncherRecord(names: map<string, string>, e: Shortcut, friendly: map<string, string>)
    requires CanonEntry(names, e, friendly).Success? && GrammarOf(e.component) == LauncherGrammar
    ensures var c := CanonEntry(names, e, friendly).value;
      && Some(c.component.value) == WrittenId(e)
      && '.' !in c.component.value && '-' !in c.component.value
      && c.prettyComponent == DesktopFile(e.component.value)
  {
    NormalizeIdSpec(DesktopFile(e.component.value).value);
  }
}
