/**
 * The menu `main` offers: one line per record, built from its labels and
 * tokens, and a table from line to record in which a later record with the
 * same line replaces an earlier one.
 */
module Menu {
  import opened Wrappers
  import opened Text
  import opened Model

  /** How Python formats an optional label: its text, or "None". */
  function Render(o: Option<string>): string {
    if o.Some? then o.value else "None"
  }

  /** The text between the component label and the action label. */
  const Separator := "::"

  /** The unstripped menu line of a record. */
  function RawLabel(s: Shortcut): string {
    Render(s.prettyComponent) + Separator + s.prettyCommand + " (" + Join(", ", s.shortcuts) + ")"
  }

  /** The menu line of a record, with surrounding whitespace removed. */
  function Label(s: Shortcut): string {
    Strip(RawLabel(s))
  }

  /**
   * The line always ends in ')', so stripping only ever removes whitespace in
   * front; when the component label does not start with whitespace, the menu
   * line is exactly component label, "::", action label and the tokens
   * joined by ", " in parentheses.
   */
  lemma LabelUnpadded(s: Shortcut)
    requires Render(s.prettyComponent) != [] && !IsSpace(Render(s.prettyComponent)[0])
    ensures Label(s) == RawLabel(s)
  {
    var raw := RawLabel(s);
    assert raw[0] == Render(s.prettyComponent)[0];
    assert raw[|raw| - 1] == ')';
    StrippedFixed(raw);
  }

  /** Record `k` is the last of the first `n` records whose line is `key`. */
  predicate LastAt(config: seq<Shortcut>, n: nat, key: string, k: nat) {
    && k < n <= |config| && Label(config[k]) == key
    && forall j | k < j < n :: Label(config[j]) != key
  }

  /** A record whose line differs from `key` keeps the last record with line `key` the last. */
  lemma LastAtExtend(config: seq<Shortcut>, n: nat, key: string, k: nat)
    requires LastAt(config, n, key, k) && n < |config| && Label(config[n]) != key
    ensures LastAt(config, n + 1, key, k)
  {
  }

  /** There is only one last record with a given line. */
  lemma LastAtUnique(config: seq<Shortcut>, n: nat, key: string, k: nat, m: nat)
    requires LastAt(config, n, key, k) && LastAt(config, n, key, m)
    ensures k == m
  {
  }

  /**
   * After the first `n` records, every one of their lines is a key, and every
   * key leads to the last of them with that line.
   */
  ghost predicate MenuAfter(config: seq<Shortcut>, n: nat, menu: map<string, Shortcut>)
    requires n <= |config|
  {
    && (forall k | 0 <= k < n :: Label(config[k]) in menu)
    && (forall key | key in menu :: exists k: nat :: LastAt(config, n, key, k) && menu[key] == config[k])
  }

  /** Entering record `n` under its line extends the table to the first `n + 1` records. */
  lemma MenuStep(config: seq<Shortcut>, n: nat, menu: map<string, Shortcut>)
    requires n < |config| && MenuAfter(config, n, menu)
    ensures MenuAfter(config, n + 1, menu[Label(config[n]) := config[n]])
  {
    var line := Label(config[n]);
    var next := menu[line := config[n]];
    forall key | key in next
      ensures exists k: nat :: LastAt(config, n + 1, key, k) && next[key] == config[k]
    {
      if key == line {
        assert LastAt(config, n + 1, key, n);
      } else {
        var k: nat :| LastAt(config, n, key, k) && menu[key] == config[k];
        LastAtExtend(config, n, key, k);
      }
    }
  }

  /**
   * The loop of `main` that fills the menu table. Every record's line is a
   * key, and every key leads to the last record with that line (so there is
   * no other key); a record is reachable when no later record shares its
   * line.
   */
  method BuildMenu(config: seq<Shortcut>) returns (menu: map<string, Shortcut>)
    ensures forall k | 0 <= k < |config| :: Label(config[k]) in menu
    ensures forall key | key in menu :: exists k: nat :: LastAt(config, |config|, key, k) && menu[key] == config[k]
    ensures forall k | 0 <= k < |config| ::
      (menu[Label(config[k])] == config[k] <== LastAt(config, |config|, Label(config[k]), k))
  {
    menu := map[];
    var i := 0;
    while i < |config|
      invariant 0 <= i <= |config|
      invariant MenuAfter(config, i, menu)
    {
      var shortcut := config[i];
      MenuStep(config, i, menu);
      menu := menu[Label(shortcut) := shortcut];
      i := i + 1;
    }
    forall k | 0 <= k < |config| && LastAt(config, |config|, Label(config[k]), k)
      ensures menu[Label(config[k])] == config[k]
    {
      var key := Label(config[k]);
      var m: nat :| LastAt(config, |config|, key, m) && menu[key] == config[m];
      LastAtUnique(config, |config|, key, k, m);
    }
  }
}
