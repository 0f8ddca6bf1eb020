# kshortcut-rofi configuration reader, modelled in Dafny

`kshortcut-rofi.py` lists KDE's global shortcuts in a rofi menu. Its core is
`read_file`, which turns the lines of `kglobalshortcutsrc` into `Shortcut`
records. This project models that function and the menu table `main` builds
from its records. `read_file` works in two loops:

- The **line scan** walks the lines in order. It carries the open section and
  the section registry, which maps a section name to its friendly name.
  - Blank lines are skipped.
  - `[name]` lines open a section.
  - `_k_friendly_name` relabels the open section.
  - Other `_` keys are skipped, except `_launch`.
  - Every other `key=value` line is decoded into a raw entry. Sections whose
    name starts with `services` use the desktop-launcher grammar, where tokens
    are separated by the two characters `\t`. All other sections use the
    ordinary comma grammar.
- The **canonicalisation** loop gives each entry its component id and its
  component label. It removes duplicate tokens and drops `none` beside real
  bindings. For launchers, it normalises the desktop-file id and asks KDE's
  global-shortcut daemon for a friendly action label.

Modules:

- `Text`: the Python string operations used: `strip`, `split`, `join`,
  `replace` and `startswith`.
- `Model`: the `Shortcut` record and the fatal errors.
- `Decode`: line classification and the two value grammars.
- `LineScan`: the scan loop as a method, proved equal to the function `Scan`.
- `Canon`: the canonicalisation loop as a method, proved equal to
  `Canonicalise`.
- `Pipeline`: the two loops composed, and what `read_file` promises overall.
- `Menu`: the menu lines and the `short_map` table.

Each loop is a `method` over the variables the source updates: the open
section, the registry map and the result sequence. Its `ensures` ties its
outcome to a recursive specification function. The lemmas state what that
function guarantees.

The configuration arrives as its lines. The daemon's friendly-name answers
arrive as a map from the normalised component id to the text the query
prints. An id that is not a key stands for a failed query. Each `exit(1)` and
each failing `assert` becomes a `Failure` carrying an `Error`. So do the two
crashes the code does not guard against:

- an entry read before any section header, which is an `AttributeError` at
  line 108;
- a `services` component with no desktop file, an `IndexError` at line 110.
  `Pipeline.ParseErrors` proves this second one cannot happen.

Details of the code the model keeps:

- Launcher values are split at the two-character escape `\t`, not at a real
  tab.
- The registry write of a launcher's desktop file (line 120) happens whether
  or not the friendly-name query succeeds.
- A header is any line that starts with `[` and ends with `]`. The name
  between them is stripped, so it need not be a bare identifier.
- A component label is looked up in the registry as it stands when the entry
  is canonicalised. That is the registry after the whole scan, plus the
  desktop-file writes of the launchers before the entry. So when an ordinary
  section has the same name as an earlier launcher's normalised id, it is
  labelled with that launcher's desktop file (`Pipeline.OrdinaryComponentLabel`
  states the exception).

## Model

| member | source | states |
|---|---|---|
| Text.StripSpec | kshortcut-rofi.py:47 | stripping gives a slice of the line with only whitespace outside it, neither starting nor ending with whitespace, empty exactly when the line is all whitespace |
| Text.StrippedFixed | kshortcut-rofi.py:89 | stripping text that is already stripped leaves it unchanged |
| Text.StripChars | kshortcut-rofi.py:89 | stripping never introduces a character |
| Text.SplitPieces | kshortcut-rofi.py:79 | no piece of `split(sep)` contains the separator |
| Text.SplitSpec | kshortcut-rofi.py:75 | joining the pieces of `split(sep)` with the separator gives the string back, empty pieces included |
| Text.SplitJoin | kshortcut-rofi.py:79 | for a one-character separator, splitting a join of separator-free pieces returns those pieces |
| Text.FirstPiece | kshortcut-rofi.py:110 | the first piece of a split at one character is the longest prefix without it |
| Text.SeveralPieces | kshortcut-rofi.py:110 | splitting at one character gives at least two pieces exactly when the character occurs |
| Text.ReplaceChar | kshortcut-rofi.py:111 | replacing one character by another is the character-wise substitution |
| Text.Without | kshortcut-rofi.py:87 | the comprehension dropping an element keeps every other element with its multiplicity and drops every copy of that one |
| Text.WithoutConcat | kshortcut-rofi.py:87 | filtering a concatenation filters each part and keeps the parts in order |
| Text.SplitJoinPair | kshortcut-rofi.py:75 | for a separator of two different characters, such as the escape `\t`, splitting a join of pieces free of it returns those pieces |
| Text.LastPiece | kshortcut-rofi.py:89 | the last piece of a split at one character is the text after its last occurrence, or the whole string when it does not occur |
| Decode.ClassifyLineSpec | kshortcut-rofi.py:47-58 | a line is blank iff all whitespace; a header iff it starts with `[` and ends with `]`, named by the stripped inner text; malformed iff neither and without `=`; otherwise split at its first `=` into stripped key and value |
| Decode.SegmentTokens | kshortcut-rofi.py:84-88 | the tokens of one comma segment are non-empty and hold no tab |
| Decode.AllTokens | kshortcut-rofi.py:83-88 | the tokens of all segments are non-empty and hold no tab |
| Decode.DecodeOrdinary | kshortcut-rofi.py:79-89 | ordinary tokens are non-empty and tab-free; the label is stripped and comma-free; a value without a comma has no token |
| Decode.OrdinaryLabel | kshortcut-rofi.py:79-89 | the label is the stripped text after the value's last comma, or the stripped value when it has no comma |
| Decode.EscapedTabTokens | kshortcut-rofi.py:84-87 | in a segment without real tabs, the tokens are the non-empty pieces between escaped tabs `\t`, in order |
| Decode.GroupTokens | kshortcut-rofi.py:84-87 | a segment holding plain tokens joined by escaped tabs is read back as exactly those tokens |
| Decode.GroupedRoundTrip | kshortcut-rofi.py:79-89 | decoding a value whose shortcut segments are groups of plain tokens joined by escaped tabs, followed by a stripped comma-free label, gives all the tokens, group after group, and that label |
| Decode.OrdinaryRoundTrip | kshortcut-rofi.py:79-89 | decoding a value written with one plain token per segment and a stripped comma-free label gives back those tokens, in order, and that label |
| Decode.OrdinaryTokensPlain | kshortcut-rofi.py:79-89 | every decoded ordinary token is non-empty and holds no comma, tab or escaped tab |
| Decode.OrdinaryIdempotent | kshortcut-rofi.py:79-89 | decoding, writing the result back one token per segment and decoding again gives the first decoding |
| Decode.PlainTokensRead | kshortcut-rofi.py:83-88 | plain tokens, one per segment, are read back as themselves |
| Decode.DecodeLauncher | kshortcut-rofi.py:75-77 | launcher tokens are never an empty list, hold no escaped tab and join back to the value; the label is the command |
| Decode.DecodeEntrySpec | kshortcut-rofi.py:67-101 | decoding fails iff a launcher section lacks `[` or an ordinary value yields no token, with the matching error; otherwise the entry keeps section and command, has a token and carries the grammar's fields |
| Decode.DecodeOrdinaryValue | kshortcut-rofi.py:79-89 | the segment loop yields exactly the ordinary grammar's tokens and label |
| Decode.DecodeValue | kshortcut-rofi.py:67-101 | decoding a value as the parser runs it gives the entry, or the error, of the grammar specification |
| LineScan.ReadLine | kshortcut-rofi.py:47-102 | the loop body for one line computes the step of the scan specification |
| LineScan.ScanPrefix | kshortcut-rofi.py:46-102 | scanning from a position is scanning the lines up to a later position and then the rest from the state they leave |
| LineScan.ReadEntries | kshortcut-rofi.py:43-102 | the scan loop, updating section, registry and entries in place, gives the outcome of the scan specification |
| LineScan.StepGood | kshortcut-rofi.py:47-102 | one line keeps every entry's section registered, every entry with a token and every launcher section with `[`; it never drops a registry key and appends at most one entry, for that line's command |
| LineScan.StepEffect | kshortcut-rofi.py:47-102 | a header opens and self-registers its section; only headers move the open section; only headers and friendly names touch the registry; an entry comes out iff the key is `_launch` or no directive |
| LineScan.ScanFromGood | kshortcut-rofi.py:46-102 | the rest of the scan keeps that invariant and never drops a registry key |
| LineScan.ScanGood | kshortcut-rofi.py:46-102 | a successful scan ends in a state satisfying that invariant |
| LineScan.MalformedIsFatal | kshortcut-rofi.py:54-57 | a malformed line anywhere makes the scan fail |
| LineScan.InvalidLineLocated | kshortcut-rofi.py:55-57 | an invalid-line error reports the 1-based number and text of a malformed line |
| LineScan.ScanErrors | kshortcut-rofi.py:54-93 | the scan stops only on a malformed line, a launcher section without `[` or a value without a token |
| LineScan.StepKeepsName | kshortcut-rofi.py:50-63 | a line that is neither the header of `s` nor a friendly name while `s` is open keeps `s`'s registry entry |
| LineScan.NameKept | kshortcut-rofi.py:50-63 | lines that never rewrite `s`'s registry entry leave it as it was through the rest of the scan |
| LineScan.FriendlyNameLasts | kshortcut-rofi.py:59-63 | a friendly name given while `s` is open is `s`'s final registry entry unless a later line rewrites it |
| Canon.DesktopFileSpec | kshortcut-rofi.py:110 | a desktop file exists iff the section holds `[`; it starts after the first `[`, holds no `[`, and runs to the end or the next `[` |
| Canon.NormalizeIdSpec | kshortcut-rofi.py:111 | normalising keeps the length, turns each `.` and `-` into `_`, leaves other characters, so the id has no `.` or `-` |
| Canon.Dedup | kshortcut-rofi.py:122 | the distinct tokens: no duplicates, same element set as the input |
| Canon.WithoutNoDup | kshortcut-rofi.py:124 | filtering out `none` keeps a duplicate-free list duplicate-free |
| Canon.CleanShortcuts | kshortcut-rofi.py:122-124 | the cleaned tokens have no duplicate; a token is kept iff it is in the input and is not a `none` beside another distinct token; non-empty input stays non-empty; `none` survives only alone |
| Canon.CanonEntrySpec | kshortcut-rofi.py:105-134 | an entry fails iff it has no section or is a launcher without a desktop file; otherwise the command is kept, the tokens cleaned, the component label read from the registry after the entry's own write, and the action label changes only for a launcher whose query succeeds |
| Canon.CanonicaliseEntry | kshortcut-rofi.py:106-134 | the loop body computes the entry's canonical record, or error, and the registry write it makes |
| Canon.CanonicaliseEntries | kshortcut-rofi.py:104-136 | the canonicalisation loop, appending records and writing the registry, gives the outcome of the specification |
| Canon.CanonFromOk | kshortcut-rofi.py:105-134 | the rest of the loop succeeds iff no remaining entry has an error |
| Canon.CanonFromRecords | kshortcut-rofi.py:105-134 | a successful rest of the loop adds one record per entry, each canonicalised against the registry left by the entries before it |
| Canon.CanonFromError | kshortcut-rofi.py:105-134 | a failing rest of the loop fails with the error of the first entry that has one |
| Canon.CanonicaliseSpec | kshortcut-rofi.py:104-136 | canonicalisation succeeds iff no entry has an error, then gives one record per entry in order; otherwise the first entry's error |
| Canon.RegistryKept | kshortcut-rofi.py:120 | canonicalisation only adds registry keys, and a key no launcher id equals keeps its value |
| Canon.LauncherRecord | kshortcut-rofi.py:108-129 | a launcher record carries its normalised id, free of `.` and `-`, labelled with its desktop file |
| Pipeline.ReadFile | kshortcut-rofi.py:42-136 | scan then canonicalisation, stopping at the first error, gives `read_file`'s outcome |
| Pipeline.ParseErrors | kshortcut-rofi.py:54-110 | `read_file` fails only on a malformed line, a launcher section without `[`, a value without a token or an entry before any section; the missing-desktop-file crash never happens |
| Pipeline.ParseRecords | kshortcut-rofi.py:104-134 | after a successful scan, `read_file` succeeds iff every entry has a section, and then returns one record per entry in order with its command and its cleaned, non-empty tokens |
| Pipeline.OrdinaryComponentLabel | kshortcut-rofi.py:129 | an ordinary entry is labelled with its section's final registry entry, so a later friendly name applies to earlier entries too, unless an earlier launcher's id equals the section name |
| Pipeline.FriendlyNameLabelsSection | kshortcut-rofi.py:59-63 | a friendly name given while a section is open becomes, through the lookup at line 129, the component label of every ordinary entry of that section, earlier ones included, unless a later line rewrites the section's entry or a launcher id equals the section name |
| Pipeline.LauncherLabel | kshortcut-rofi.py:108-132 | a launcher record has the normalised desktop-file id, no `.` or `-`, the desktop file as component label, and the stripped query answer as action label when the query succeeds, the command otherwise |
| Pipeline.MalformedLineFails | kshortcut-rofi.py:54-57 | a malformed line anywhere makes `read_file` fail |
| Menu.LabelUnpadded | kshortcut-rofi.py:151 | when the component label does not start with whitespace, stripping the menu line changes nothing |
| Menu.MenuStep | kshortcut-rofi.py:149-152 | entering one more record keeps every line a key, each leading to the last record with that line |
| Menu.BuildMenu | kshortcut-rofi.py:148-152 | every record's line is a key; every key leads to the last record with that line; a record no later record shadows is reachable |

## Left out

- Locating and reading the configuration file (lines 32-42) is file I/O. The
  model starts from the list of lines that `splitlines()` gives.
- The daemon queries (lines 21-29, 113-119) are a foreign process. The
  friendly-name answers are a map parameter. The UTF-8 decoding of the
  query's output is library behaviour and is not modelled.
- The invoke-shortcut dispatch (lines 154-169) is not modelled. Neither is
  the rofi subprocess, nor the `shutil.which` checks (lines 140-146).
- The messages printed before `exit(1)` and for unknown directives are output
  only. The model keeps the error itself, or skips the line.
- Canon.Dedup: the order of `list(set(...))` is unspecified in Python. The
  model keeps each token's first occurrence. Dedup's and CleanShortcuts'
  contracts speak only of the element set and the absence of duplicates,
  never of the order.
- Canon.CanonEntrySpec: equates a record's tokens with `CleanShortcuts`, so
  it fixes the model's first-occurrence order, which the program does not
  promise. Only the set-level facts of `CleanShortcuts` hold of the program.
- Canon.CanonicaliseSpec: equates each record with `CanonEntry`, and so fixes
  the same token order.
- Pipeline.ParseRecords: states `shortcuts == CleanShortcuts(...)`, which
  fixes the same token order.
- Menu.BuildMenu: a menu line joins the tokens in the order just described.
  So which records share a line, in the real program, depends on set order.
- LineScan.Rename: a `_k_friendly_name` before any section writes the
  registry key `None`. No later lookup can read that key, so the model's
  string-keyed registry leaves it out.
- Model.Shortcut: `pretty_command` is optional in the record's declaration
  but always a string in practice. The model types it as a string.
