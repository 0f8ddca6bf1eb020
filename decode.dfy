/**
 * Line classification and the two value grammars of `kglobalshortcutsrc`.
 *
 * A line is blank, a `[section]` header, or `key=value`; anything else is
 * malformed. Keys starting with '_' are directives. A value is decoded with
 * the desktop-launcher grammar when the current section's name starts with
 * "services", and with the ordinary comma grammar otherwise.
 */
module Decode {
  import opened Wrappers
  import opened Text
  import opened Model

  const FriendlyNameKey := "_k_friendly_name"
  const LaunchKey := "_launch"
  const LauncherPrefix := "services"
  /** The two characters backslash and 't', as KDE writes a tab inside a value. */
  const EscapedTab := "\\t"
  const Tab := "\t"

  datatype LineKind =
    | Blank
    | Header(name: string)
    | Malformed
    | Pair(key: string, value: string)

  /** `line` has its first '=' at index `i`; `key` and `value` are the stripped text before and after it. */
  predicate SplitsAt(line: string, i: nat, key: string, value: string) {
    && i < |line| && line[i] == '=' && '=' !in line[..i]
    && key == Strip(line[..i]) && value == Strip(line[i + 1..])
  }

  /** What one line of the file is. */
  function ClassifyLine(line: string): LineKind {
    if Strip(line) == [] then Blank
    else if StartsWith(line, "[") && EndsWith(line, "]") then Header(Strip(line[1..|line| - 1]))
    else
      match FindFrom(line, "=", 0)
      case None => Malformed
      case Some(i) => Pair(Strip(line[..i]), Strip(line[i + 1..]))
  }

  /**
   * A line of whitespace is blank; a line that starts with '[' and ends with
   * ']' (no whitespace around them) is a header whose name is the stripped
   * text between the brackets; any other line without '=' is malformed; the
   * rest split at their first '=' into a stripped key and a stripped value.
   */
  lemma ClassifyLineSpec(line: string)
    ensures var k := ClassifyLine(line);
      && (k.Blank? <==> AllSpace(line))
      && (k.Header? <==> !AllSpace(line) && StartsWith(line, "[") && EndsWith(line, "]"))
      && (k.Header? ==> |line| >= 2 && k.name == Strip(line[1..|line| - 1]))
      && (k.Malformed? <==> !AllSpace(line) && !(StartsWith(line, "[") && EndsWith(line, "]")) && '=' !in line)
      && (k.Pair? ==> exists i: nat :: SplitsAt(line, i, k.key, k.value))
  {
    StripSpec(line);
    FindCharNone(line, '=');
    match FindFrom(line, "=", 0)
    case None =>
    case Some(i) =>
      FindCharSome(line, '=', i);
      assert SplitsAt(line, i, Strip(line[..i]), Strip(line[i + 1..]));
  }

  /** How a key is handled: the two known directives, an unknown directive, or a command. */
  datatype KeyKind = FriendlyName | Launch | UnknownDirective | Command

  function ClassifyKey(key: string): KeyKind {
    if StartsWith(key, "_") then
      if key == FriendlyNameKey then FriendlyName
      else if key == LaunchKey then Launch
      else UnknownDirective
    else Command
  }

  /** The two value grammars; which one applies depends only on the current section. */
  datatype Grammar = LauncherGrammar | OrdinaryGrammar

  function GrammarOf(section: Option<string>): Grammar {
    if section.Some? && StartsWith(section.value, LauncherPrefix) then LauncherGrammar else OrdinaryGrammar
  }

  /** The decoded part of a value: the shortcut tokens and the action's label. */
  datatype Fields = Fields(shortcuts: seq<string>, prettyName: string)

  /** The escaped tabs of a segment turned into real tabs. */
  function Unescape(segment: string): string {
    if Contains(segment, EscapedTab) then Replace(segment, EscapedTab, Tab) else segment
  }

  /** The non-empty tab-separated pieces of one comma segment, once its escaped tabs are real tabs. */
  function SegmentTokens(segment: string): (ts: seq<string>)
    ensures forall t | t in ts :: t != [] && '\t' !in t
  {
    var pieces := Split(Unescape(segment), Tab);
    SplitPieces(Unescape(segment), Tab);
    PiecesFreeOfChar(pieces, '\t');
    Without(pieces, [])
  }

  /** The tokens of all segments, segment after segment. */
  function AllTokens(segments: seq<string>): (ts: seq<string>)
    ensures forall t | t in ts :: t != [] && '\t' !in t
    decreases |segments|
  {
    if segments == [] then []
    else AllTokens(segments[..|segments| - 1]) + SegmentTokens(segments[|segments| - 1])
  }

  /**
   * The ordinary grammar: the value's comma segments are shortcut groups
   * followed by the label. Tokens are non-empty and hold no tab; the label is
   * stripped and holds no comma; a value without a comma has no token.
   */
  function DecodeOrdinary(value: string): (f: Fields)
    ensures forall t | t in f.shortcuts :: t != [] && '\t' !in t
    ensures Stripped(f.prettyName) && ',' !in f.prettyName
    ensures ',' !in value ==> f.shortcuts == []
  {
    var segments := Split(value, ",");
    var last := segments[|segments| - 1];
    assert Stripped(Strip(last)) by {
      StripSpec(last);
    }
    assert ',' !in Strip(last) by {
      SplitPieces(value, ",");
      ContainsChar(last, ',');
      if ',' in Strip(last) {
        StripChars(last, ',');
      }
    }
    assert ',' !in value ==> segments == [value] by {
      if ',' !in value {
        NoOccurrence(value, ",", 0);
      }
    }
    Fields(AllTokens(segments[..|segments| - 1]), Strip(last))
  }

  /**
   * An ordinary value holding one token per segment, followed by the label.
   */
  function EncodeOrdinary(f: Fields): string {
    Join(",", f.shortcuts + [f.prettyName])
  }

  /** A token that the ordinary grammar reads back as itself. */
  predicate PlainToken(t: string) {
    t != [] && ',' !in t && '\t' !in t && !Contains(t, EscapedTab)
  }

  /**
   * Decoding an encoded value gives back its tokens, in order, and its label,
   * provided the tokens are plain and the label is stripped and comma-free.
   */
  lemma OrdinaryRoundTrip(f: Fields)
    requires forall t | t in f.shortcuts :: PlainToken(t)
    requires ',' !in f.prettyName && Stripped(f.prettyName)
    ensures DecodeOrdinary(EncodeOrdinary(f)) == f
  {
    var parts := f.shortcuts + [f.prettyName];
    assert forall k | 0 <= k < |parts| :: ","[0] !in parts[k] by {
      forall k | 0 <= k < |parts| ensures ","[0] !in parts[k] {
        if k < |f.shortcuts| {
          assert parts[k] in f.shortcuts;
        }
      }
    }
    SplitJoin(",", parts);
    assert parts[..|parts| - 1] == f.shortcuts;
    PlainTokensRead(f.shortcuts);
    StrippedFixed(f.prettyName);
  }

  lemma {:induction false} PlainTokensRead(ts: seq<string>)
    requires forall t | t in ts :: PlainToken(t)
    ensures AllTokens(ts) == ts
    decreases |ts|
  {
    if ts != [] {
      var t := ts[|ts| - 1];
      assert ts[..|ts| - 1] + [t] == ts;
      PlainTokensRead(ts[..|ts| - 1]);
      assert t in ts && Tab[0] == '\t';
      NoOccurrence(t, Tab, 0);
      assert SegmentTokens(t) == [t];
    }
  }

  /** Turning escaped tabs into tabs is joining the pieces between escaped tabs with tabs. */
  lemma UnescapeJoin(segment: string)
    ensures Unescape(segment) == Join(Tab, Split(segment, EscapedTab))
  {
    if !Contains(segment, EscapedTab) {
      NotContainsSplit(segment, EscapedTab);
    }
  }

  /**
   * In a segment without real tab characters, the tokens are the non-empty
   * pieces between escaped tabs, in order.
   */
  lemma EscapedTabTokens(segment: string)
    requires '\t' !in segment
    ensures SegmentTokens(segment) == Without(Split(segment, EscapedTab), [])
  {
    var pieces := Split(segment, EscapedTab);
    UnescapeJoin(segment);
    ContainsChar(segment, '\t');
    SplitPiecesFree(segment, EscapedTab, Tab);
    PiecesFreeOfChar(pieces, '\t');
    SplitJoin(Tab, pieces);
  }

  /**
   * A group of plain tokens written with escaped tabs between them, as one
   * segment, is read back as exactly those tokens; an empty group gives none.
   */
  lemma GroupTokens(ts: seq<string>)
    requires forall t | t in ts :: PlainToken(t)
    ensures SegmentTokens(Join(EscapedTab, ts)) == ts
  {
    var g := Join(EscapedTab, ts);
    assert forall k | 0 <= k < |ts| :: '\t' !in ts[k] && !Contains(ts[k], EscapedTab) by {
      forall k | 0 <= k < |ts| ensures '\t' !in ts[k] && !Contains(ts[k], EscapedTab) {
        assert PlainToken(ts[k]);
      }
    }
    JoinFree(EscapedTab, ts, '\t');
    EscapedTabTokens(g);
    if ts == [] {
      NotContainsSplit(g, EscapedTab);
    } else {
      SplitJoinPair(EscapedTab, ts);
      WithoutAbsent(ts, []);
    }
  }

  /** The tokens of several groups, one group after another. */
  function Concat(groups: seq<seq<string>>): seq<string>
    decreases |groups|
  {
    if groups == [] then [] else Concat(groups[..|groups| - 1]) + groups[|groups| - 1]
  }

  /** Every token of every group is plain. */
  predicate PlainGroups(groups: seq<seq<string>>) {
    forall k, t | 0 <= k < |groups| && t in groups[k] :: PlainToken(t)
  }

  /**
   * An ordinary value whose shortcut segments each hold a group of tokens
   * separated by escaped tabs, followed by the label.
   */
  function EncodeGroups(groups: seq<seq<string>>, prettyName: string): string {
    Join(",", seq(|groups|, k requires 0 <= k < |groups| => Join(EscapedTab, groups[k])) + [prettyName])
  }

  lemma {:induction false} GroupsRead(groups: seq<seq<string>>, segments: seq<string>)
    requires PlainGroups(groups) && |segments| == |groups|
    requires forall k | 0 <= k < |groups| :: segments[k] == Join(EscapedTab, groups[k])
    ensures AllTokens(segments) == Concat(groups)
    decreases |groups|
  {
    if groups != [] {
      var n := |groups|;
      var front, last := groups[..n - 1], groups[n - 1];
      assert PlainGroups(front) by {
        forall k, t | 0 <= k < |front| && t in front[k] ensures PlainToken(t) {
          assert front[k] == groups[k];
        }
      }
      assert forall t | t in last :: PlainToken(t) by {
        forall t | t in last ensures PlainToken(t) {
          assert t in groups[n - 1];
        }
      }
      GroupsRead(front, segments[..n - 1]);
      GroupTokens(last);
      assert AllTokens(segments) == AllTokens(segments[..n - 1]) + SegmentTokens(Join(EscapedTab, last));
    }
  }

  /**
   * Decoding a value written as escaped-tab groups gives back all the
   * groups' tokens, group after group, and the label, provided the tokens
   * are plain and the label is stripped and comma-free.
   */
  lemma GroupedRoundTrip(groups: seq<seq<string>>, prettyName: string)
    requires PlainGroups(groups)
    requires ',' !in prettyName && Stripped(prettyName)
    ensures DecodeOrdinary(EncodeGroups(groups, prettyName)) == Fields(Concat(groups), prettyName)
  {
    var segments := seq(|groups|, k requires 0 <= k < |groups| => Join(EscapedTab, groups[k]));
    var parts := segments + [prettyName];
    forall k | 0 <= k < |parts| ensures ","[0] !in parts[k] {
      if k < |groups| {
        forall m | 0 <= m < |groups[k]| ensures ',' !in groups[k][m] {
          assert PlainToken(groups[k][m]);
        }
        JoinFree(EscapedTab, groups[k], ',');
      }
    }
    SplitJoin(",", parts);
    assert parts[..|parts| - 1] == segments;
    GroupsRead(groups, segments);
    StrippedFixed(prettyName);
  }

  /** The tokens of a comma-free segment are plain. */
  lemma SegmentPlain(segment: string)
    requires ',' !in segment
    ensures forall t | t in SegmentTokens(segment) :: PlainToken(t)
  {
    var pieces := Split(segment, EscapedTab);
    var u := Unescape(segment);
    UnescapeJoin(segment);
    SplitPieces(segment, EscapedTab);
    ContainsChar(segment, ',');
    SplitPiecesFree(segment, EscapedTab, ",");
    PiecesFreeOfChar(pieces, ',');
    JoinFree(Tab, pieces, ',');
    JoinPairFree('\t', pieces, EscapedTab);
    ContainsChar(u, ',');
    SplitPiecesFree(u, Tab, ",");
    SplitPiecesFree(u, Tab, EscapedTab);
    PiecesFreeOfChar(Split(u, Tab), ',');
  }

  lemma {:induction false} AllTokensPlain(segments: seq<string>)
    requires forall k | 0 <= k < |segments| :: ',' !in segments[k]
    ensures forall t | t in AllTokens(segments) :: PlainToken(t)
    decreases |segments|
  {
    if segments != [] {
      AllTokensPlain(segments[..|segments| - 1]);
      SegmentPlain(segments[|segments| - 1]);
    }
  }

  /** Every token the ordinary grammar decodes is plain. */
  lemma OrdinaryTokensPlain(value: string)
    ensures forall t | t in DecodeOrdinary(value).shortcuts :: PlainToken(t)
  {
    var segments := Split(value, ",");
    SplitPieces(value, ",");
    PiecesFreeOfChar(segments, ',');
    AllTokensPlain(segments[..|segments| - 1]);
  }

  /**
   * Decoding, writing the result back one token per segment and decoding
   * again gives the first decoding back.
   */
  lemma OrdinaryIdempotent(value: string)
    ensures DecodeOrdinary(EncodeOrdinary(DecodeOrdinary(value))) == DecodeOrdinary(value)
  {
    OrdinaryTokensPlain(value);
    OrdinaryRoundTrip(DecodeOrdinary(value));
  }

  /**
   * The label of an ordinary value is the stripped text after its last
   * comma, or the stripped value when it has no comma.
   */
  lemma OrdinaryLabel(value: string)
    ensures ',' !in value ==> DecodeOrdinary(value).prettyName == Strip(value)
    ensures ',' in value ==> exists i: nat :: LastAt(value, ',', i) && DecodeOrdinary(value).prettyName == Strip(value[i + 1..])
  {
    LastPiece(value, ',');
  }

  /**
   * The desktop-launcher grammar: the tokens are the pieces of the value
   * between escaped tabs, empty pieces included, so there is always one; they
   * join back to the value; the label is the command itself.
   */
  function DecodeLauncher(command: string, value: string): (f: Fields)
    ensures f.shortcuts != [] && Join(EscapedTab, f.shortcuts) == value
    ensures forall k | 0 <= k < |f.shortcuts| :: !Contains(f.shortcuts[k], EscapedTab)
    ensures f.prettyName == command
  {
    SplitPieces(value, EscapedTab);
    SplitSpec(value, EscapedTab);
    Fields(Split(value, EscapedTab), command)
  }

  /** The entry a decoded value yields, unless it has no token. */
  function Checked(section: Option<string>, command: string, f: Fields): Result<Shortcut, Error> {
    if f.shortcuts == [] then Failure(EmptyShortcuts(command))
    else Success(Shortcut(section, None, command, f.shortcuts, f.prettyName))
  }

  /** Decodes the value of `command` read in `section` into a raw entry, or the reason the parser stops. */
  function DecodeEntry(section: Option<string>, command: string, value: string): Result<Shortcut, Error>
  {
    match GrammarOf(section)
    case LauncherGrammar =>
      if '[' !in section.value then Failure(LauncherWithoutBracket(section.value))
      else Checked(section, command, DecodeLauncher(command, value))
    case OrdinaryGrammar =>
      Checked(section, command, DecodeOrdinary(value))
  }

  /**
   * Decoding fails exactly when a launcher section has no '[' or an ordinary
   * value has no token, with the matching error; otherwise the entry belongs
   * to the section, keeps the command, has at least one token and no
   * component label yet, and carries what the section's grammar decodes.
   */
  lemma DecodeEntrySpec(section: Option<string>, command: string, value: string)
    ensures var r := DecodeEntry(section, command, value);
      && (r.Failure? <==>
            || (GrammarOf(section) == LauncherGrammar && '[' !in section.value)
            || (GrammarOf(section) == OrdinaryGrammar && DecodeOrdinary(value).shortcuts == []))
      && (r.Failure? && GrammarOf(section) == LauncherGrammar ==> r.error == LauncherWithoutBracket(section.value))
      && (r.Failure? && GrammarOf(section) == OrdinaryGrammar ==> r.error == EmptyShortcuts(command))
      && (r.Success? ==>
            && r.value.component == section && r.value.command == command
            && r.value.prettyComponent == None && r.value.shortcuts != [])
      && (r.Success? && GrammarOf(section) == LauncherGrammar ==>
            Fields(r.value.shortcuts, r.value.prettyCommand) == DecodeLauncher(command, value))
      && (r.Success? && GrammarOf(section) == OrdinaryGrammar ==>
            Fields(r.value.shortcuts, r.value.prettyCommand) == DecodeOrdinary(value))
  {
  }

  /**
   * The decoding of one command's value as the parser runs it: the launcher
   * grammar after checking the section for '[', or the ordinary grammar's
   * loop, and then the check that some token came out.
   */
  method DecodeValue(section: Option<string>, command: string, value: string) returns (r: Result<Shortcut, Error>)
    ensures r == DecodeEntry(section, command, value)
  {
    var shortcuts, prettyName;
    if GrammarOf(section) == LauncherGrammar {
      if '[' !in section.value {
        return Failure(LauncherWithoutBracket(section.value));
      }
      shortcuts, prettyName := Split(value, EscapedTab), command;
    } else {
      shortcuts, prettyName := DecodeOrdinaryValue(value);
    }
    if shortcuts == [] {
      return Failure(EmptyShortcuts(command));
    }
    return Success(Shortcut(section, None, command, shortcuts, prettyName));
  }

  /** The tokens of one more segment come after those of the segments before it. */
  lemma TokensStep(defs: seq<string>, j: nat)
    requires j < |defs|
    ensures AllTokens(defs[..j + 1]) == AllTokens(defs[..j]) + SegmentTokens(defs[j])
  {
    assert defs[..j + 1][..j] == defs[..j];
  }

  /** The ordinary grammar takes the tokens of all comma segments but the last, and the stripped last one as label. */
  lemma OrdinaryParts(value: string)
    ensures var segments := Split(value, ",");
      DecodeOrdinary(value) == Fields(AllTokens(segments[..|segments| - 1]), Strip(segments[|segments| - 1]))
  {
  }

  /**
   * The ordinary grammar as the parser runs it: a loop over the shortcut
   * segments that extends the token list segment by segment.
   */
  method DecodeOrdinaryValue(value: string) returns (shortcuts: seq<string>, prettyName: string)
    ensures Fields(shortcuts, prettyName) == DecodeOrdinary(value)
  {
    var entries := Split(value, ",");
    var defs := entries[..|entries| - 1];
    shortcuts := [];
    var j := 0;
    while j < |defs|
      invariant 0 <= j <= |defs|
      invariant shortcuts == AllTokens(defs[..j])
    {
      TokensStep(defs, j);
      shortcuts := shortcuts + SegmentTokens(defs[j]);
      j := j + 1;
    }
    assert defs[..j] == defs;
    prettyName := Strip(entries[|entries| - 1]);
    OrdinaryParts(value);
  }
}
