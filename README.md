# importtime-waterfall in Dafny

importtime-waterfall runs `python -X importtime -c 'import <module>'` and reads the timing lines the
interpreter writes to stderr (`import time: <self us> | <cumulative us> | <indent><name>`). It rebuilds
the import tree from them and renders that tree in one of two ways:

- a terminal "waterfall": one line per module, indented by depth, with a red bar proportional to its time;
- a HAR (HTTP Archive) document: every import is a request on a fake clock, so a browser's network panel
  can draw it.

This project models the core of `importtime_waterfall.py` and proves properties of the model:

- `pytext.dfy` (module `PyText`): the Python string and integer behaviour the parser and renderers depend
  on. This covers `str.isspace` and `lstrip`, the narrower whitespace `int()` skips around its digits,
  `split('|')`, `int()` on a string, `str()` of an
  integer, `ljust`, and slicing with an out-of-range or negative bound.
- `trace_line.dfy` (module `TraceLine`): what the parse loop makes of one stderr line. The line is skipped,
  the three-field unpack fails, or it yields an entry with two times, a name and the indentation that was
  stripped. This file also covers the interpreter's own line format, and the pop-loop threshold
  `(indent - 1) / 2 + 1` computed in true division.
- `import_tree.dfy` (module `ImportTree`): the `Import` record, with its pre-order walk (used by `pp`) and
  post-order (used by `visit`).
- `tree_builder.dfy` (module `TreeBuilder`): the parse loop of `main`.
  - It is a method that scans the lines last to first, with a stack of node ids and an arena of nodes.
  - The arena stands in for the shared, mutated `Import` objects: each new import is inserted at the
    front of the children of the stack entry the pop loop stops at.
  - It then filters the root's children by module name, in place.
- `waterfall.dfy` (module `Waterfall`): `get_max_time`, and `graph` with its nested `pp`. Output is the
  sequence of rows printed: plain, or split into a red part and the rest.
- `har_export.dfy` (module `HarExport`): `har` with its nested `visit`.
  - `visit` is a recursive method with a loop over the children.
  - The fake clock is a number of milliseconds after 1991-07-05 and advances one millisecond per
    microsecond of self time.
  - An entry's time is `diff.seconds * 1000 + diff.microseconds // 1000`, so it drops whole days.
- `wrappers.dfy` (module `Wrappers`): `Option`, `Result`, `Min` and `Max`.

The terminal width and `sys.version` are parameters. Where Python raises an exception, the model returns
an error value:
- the three-field unpack (`UnpackError`);
- an empty stack at `import_stack[-1]` (`EmptyStack`);
- division by a zero maximum time in `graph` (`ZeroDivision`);
- `root.children[-1]` in `har` when the root has no children (`NoChildren`).

Some behaviour of the code that is easy to misremember, and that the model keeps:
- The waterfall shows one time per module, self or cumulative as the `--cumulative` flag selects. It does
  not show both; for example, the package of `Waterfall.GraphExample` prints as `pkg (3)`.
- There are no maximum-depth or hide-under options, and children are not sorted. They are printed in
  trace order.
- Every marked line must have exactly three `|`-separated fields. A line without a cumulative field is an
  unpack error, not an accepted variant.
- The cumulative time is copied from the trace line. It is not recomputed from the children.
- The loop reads the trace last to first. A module's line therefore comes after the lines of the modules
  it imported, which is how CPython writes it. A trace that lists a module before the modules it imported
  does not nest them under it. `TreeBuilder.Feed` shows why: a node goes under the stack entry at its
  level, and that entry is the most recently attached node.

## Model

| member | source | states |
|---|---|---|
| PyText.LTrimShape | importtime_waterfall.py:188-193 | trimming removes exactly a leading run of the given whitespace class and keeps the rest as it is, and the result does not start with that whitespace; with `str.isspace` whitespace this is `lstrip()` (line 193), with the whitespace `int()` skips (space, tab, newline, vertical tab, form feed, carriage return, and non-ASCII whitespace, but not U+001C to U+001F) it is the leading half of what `int()` ignores |
| PyText.RTrimShape | importtime_waterfall.py:188-189 | the trailing half of what `int()` ignores: exactly a trailing run of `int()` whitespace is removed, the rest is kept, and the result does not end with such whitespace |
| PyText.Split | importtime_waterfall.py:186 | splitting at the bar separator gives one more field than there are separators, no field contains the separator, and joining the fields with it gives back the string |
| PyText.ParseInt | importtime_waterfall.py:188-189 | when `int()` reads a field, the field holds a digit, and a negative result needs a minus sign in the field |
| PyText.ParseIntRejectsForeign | importtime_waterfall.py:187-191 | `int()` fails on any field holding a character that is not `int()` whitespace, a digit, a sign or an underscore, wherever it stands; U+001C to U+001F are such characters |
| PyText.ParseDecimalString | importtime_waterfall.py:188-189 | `int()` reads back `str(n)` as n, with any amount of space padding on both sides |
| PyText.IntStripPadded | importtime_waterfall.py:188-189 | space padding around a string that starts and ends with a character `int()` does not skip is exactly what `int()` ignores |
| PyText.NatStringValue | importtime_waterfall.py:48 | the decimal digits of n form a digit run whose value is n |
| PyText.DecimalString | importtime_waterfall.py:48 | `str(time)` is a non-empty string of digits and minus signs, with no whitespace at either end |
| PyText.LJust | importtime_waterfall.py:50 | `ljust(width)` keeps the string as a prefix, is as long as the width or the string, whichever is longer, and pads only with spaces |
| PyText.SliceBound | importtime_waterfall.py:52 | for `output[:k]` and `output[k:]`, a bound of k or more clamps to the length, and a negative bound counts from the end and clamps at 0 |
| PyText.TruncDiv | importtime_waterfall.py:51 | `int()` of a quotient truncates toward zero, for operands of any sign: its magnitude is the number of whole divisors that fit in the numerator's magnitude, it is negative exactly when it is non-zero and the signs differ, and for a non-negative numerator and a positive divisor it is floor division |
| TraceLine.ParseLine | importtime_waterfall.py:184-193 | a line without the marker is skipped, and a marked line is an unpack error only when the text after the marker has a bar count other than two, the error recording the field count |
| TraceLine.ParseFields | importtime_waterfall.py:186-193 | the three-field unpack fails exactly when there are not three fields; a line is skipped exactly when it has three fields and one of the first two does not read with `int()`; an entry carries the two times `int()` reads, and its third field is `indent` whitespace characters followed by the name, which does not start with whitespace |
| TraceLine.IgnoredExactly | importtime_waterfall.py:184-191 | a line is skipped exactly when it lacks the marker, or when it has three fields and one of the first two is not an integer; a marked line whose field count is not three is an unpack error |
| TraceLine.EntryShape | importtime_waterfall.py:184-198 | an accepted line is marker, self time, bar, cumulative time, bar, then `indent` whitespace characters and the name; both times read back with `int()`, and the name does not start with whitespace |
| TraceLine.NonNumericSelfIgnored | importtime_waterfall.py:187-191 | a three-field line whose first field holds a character `int()` never accepts is skipped |
| TraceLine.SeparatorBeforeTimeIgnored | importtime_waterfall.py:187-191 | U+001F is whitespace for `lstrip` but not for `int()`, so a self time written after it is rejected and its line is skipped |
| TraceLine.HeaderIgnored | importtime_waterfall.py:190 | the interpreter's header line (`self [us]`, `cumulative`, `imported package` between bars) is skipped |
| TraceLine.SplitThree | importtime_waterfall.py:186 | three fields without the bar character, joined by it, split back into the same three |
| TraceLine.ParseNumberField | importtime_waterfall.py:188-189 | a number padded as the interpreter pads it reads back as the number and contains no bar character |
| TraceLine.ParseEmitted | importtime_waterfall.py:184-198 | parsing a line in the interpreter's format (`%9ld` self time, `%10ld` cumulative time, then the name after `1 + 2 * level` spaces) gives back both numbers and the name, with indent `1 + 2 * level` |
| TraceLine.AboveThreshold | importtime_waterfall.py:200-201 | the stack length exceeds the real threshold `(indent - 1) / 2 + 1` exactly when it exceeds the whole number `(indent + 1) / 2` |
| TraceLine.LevelOfIndent | importtime_waterfall.py:200 | the indent of a module `level` levels deep keeps `level + 1` stack entries (the root plus its enclosing imports); an indent of 0 keeps none |
| ImportTree.Walk | importtime_waterfall.py:45-57 | a pre-order walk has one entry per node of the tree and starts with the root at the depth it was given |
| ImportTree.ForestNodesMember | importtime_waterfall.py:28-32 | a node of a forest is a node of one of its trees, and every node of those trees is one of its nodes |
| ImportTree.ForestWalkDepths | importtime_waterfall.py:56-57 | every node a walk starting at depth d meets is at depth d or deeper |
| ImportTree.ForestWalkNodes | importtime_waterfall.py:56-60 | the walk meets the forest's nodes in pre-order |
| ImportTree.ForestWalkAt | importtime_waterfall.py:59-60 | tree j's walk starts right after the nodes of the trees before it, at the starting depth |
| ImportTree.PostOrder | importtime_waterfall.py:88-96 | the post-order has one entry per node of the tree, and the node itself comes last, after its children's entries |
| TreeBuilder.Unlisted | importtime_waterfall.py:180-181 | the root, and any id not yet made, is nobody's child |
| TreeBuilder.DepthUnique | importtime_waterfall.py:180-204 | in the tree the loop builds, every node has exactly one depth |
| TreeBuilder.ChainDepth | importtime_waterfall.py:181-204 | stack position i holds a node at depth i below the root |
| TreeBuilder.Attach | importtime_waterfall.py:194-204 | attaching appends the new node to the arena, truncates the stack to the kept entries and pushes the new id, inserts that id at the front of the kept top entry's children, and leaves every other node as it was and that entry's name and times alone |
| TreeBuilder.AttachFields | importtime_waterfall.py:194-204 | attaching adds exactly one node, the new import, and changes no other node's name or times |
| TreeBuilder.AttachValid | importtime_waterfall.py:200-204 | attaching a childless node keeps a tree with a single parent per node, children newest first and a stack that is a root-anchored chain; it puts the new node at depth `keep`, one below the entry it was attached to |
| TreeBuilder.PopAbove | importtime_waterfall.py:200-202 | the pop loop leaves exactly the bottom `min((indent + 1) / 2, len(stack))` entries |
| TreeBuilder.Feed | importtime_waterfall.py:184-204 | one parsed line: skipping leaves the state alone; an unpack error or an empty stack fails (and nothing else does); otherwise the new node is attached under the entry the pop loop stops at, the state stays a valid tree-and-chain, and the node lands at that depth |
| TreeBuilder.ParseAllAt | importtime_waterfall.py:183 | the parsed lines line up with the lines |
| TreeBuilder.AcceptedFrom | importtime_waterfall.py:183-193 | during the reversed scan, the accepted lines are listed last to first, and every accepted line is listed |
| TreeBuilder.OriginsStep | importtime_waterfall.py:183-204 | each accepted line adds one node with its name and times, in scan order, and a skipped line adds none |
| TreeBuilder.ScanStep | importtime_waterfall.py:183-204 | a line the loop survives keeps the loop invariant: the state is a valid tree, it holds one node per accepted line, no line scanned so far failed, and the nesting, stack depths and stack height are the ones the indentation gives |
| TreeBuilder.NewestFirstIsTraceOrder | importtime_waterfall.py:203 | inserting at the front during a backward scan leaves every children list in the trace's forward line order |
| TreeBuilder.NestStep | importtime_waterfall.py:196-204 | attaching an accepted line's node keeps the nesting invariant: every node sits one level below its parent, the parent is the newest earlier node one level up, stack position s holds a node of depth s with only deeper nodes made after it, and the stack height is the one the replay of the indent levels gives |
| TreeBuilder.ScanStart | importtime_waterfall.py:180-181 | before any line the root alone, on a stack of height one, satisfies the loop invariant |
| TreeBuilder.ScanDone | importtime_waterfall.py:183-204 | after the last line the loop's arena is built from the trace, and it is the only arena that is |
| TreeBuilder.FeedLine | importtime_waterfall.py:184-204 | one turn of the loop fails exactly when that line fails, that line then being the last failing one, with its exception (the unpack error with its field count, or the empty stack), and otherwise keeps the loop invariant one line further |
| TreeBuilder.BuildTree | importtime_waterfall.py:180-204 | the loop fails exactly when some line is an unpack error or would empty the stack, and then with the exception of the last such line in file order, the first the reversed scan meets; otherwise it yields the root plus one node per accepted line, with the same name and times, arranged as a tree whose children follow the trace order and in which every node hangs under the newest earlier node whose depth, from its indentation cut to the stack height, is one less; that arena is the only one with these properties |
| TreeBuilder.UnpackReported | importtime_waterfall.py:183-191 | a lone marked line without bars is the last failing line, and the exception it raises is the unpack error for one field |
| TreeBuilder.NestedDepth | importtime_waterfall.py:196-204 | in a nested arena every node's depth in the tree is the depth its indentation gives |
| TreeBuilder.BuiltDepth | importtime_waterfall.py:196-204 | in the arena the loop builds, every node's depth in the tree is the depth its indentation gives |
| TreeBuilder.SameParent | importtime_waterfall.py:200-204 | two arenas built from the same trace give each node the same parent |
| TreeBuilder.DecreasingSame | importtime_waterfall.py:203 | two newest-first children lists with the same members are the same list |
| TreeBuilder.BuiltUnique | importtime_waterfall.py:180-204 | the trace fixes the built arena completely: names, times, parents and the order of every children list |
| TreeBuilder.SubmoduleNested | importtime_waterfall.py:196-204 | for the two lines CPython writes when a package imports a submodule (the submodule first, indented one level more), the submodule is the package's child and not the root's, and the package is the root's child |
| TreeBuilder.KeepChildren | importtime_waterfall.py:206-209 | the comprehension keeps exactly the children named after the module, or all of them with `--include-interpreter-startup`, in their original order |
| TreeBuilder.KeepEntryModule | importtime_waterfall.py:206-209 | the slice assignment replaces only the root's children list; every other node is unchanged |
| TreeBuilder.ToTree | importtime_waterfall.py:28-32 | the finished tree carries each node's name, times and number of children |
| TreeBuilder.ToForest | importtime_waterfall.py:28-32 | child i of the finished tree is the tree of child id i |
| TreeBuilder.ParseTrace | importtime_waterfall.py:180-209 | end to end: it fails exactly when some line fails, with the exception of the last failing line; otherwise it yields a root named `root` with zero times whose top-level children all carry the module's name (unless startup imports are included), and which is the filtered tree of the arena the trace builds, the one arena it does |
| Waterfall.MaxOf | importtime_waterfall.py:36-39 | `max()` of a non-empty list is one of its elements and no element exceeds it |
| Waterfall.MaxTime | importtime_waterfall.py:35-39 | `get_max_time` is at least the node's own shown time and at least every child's maximum, and it equals one of them |
| Waterfall.MaxTimeIsMaximum | importtime_waterfall.py:35-39 | `get_max_time` is the largest time shown by any node of the tree, root included: some node shows it and none shows more |
| Waterfall.RedChars | importtime_waterfall.py:51 | the red length, in magnitude, is the number of whole maxima that fit in `time * width`, and a non-zero length is negative exactly when the signs of `time * width` and the maximum differ |
| Waterfall.Highlight | importtime_waterfall.py:50-52 | with a terminal, the row is a red part and a rest that together make up the text padded to the width |
| Waterfall.Pp | importtime_waterfall.py:45-57 | `pp(x)` prints one row per node of x's subtree, the first being x's own row at its depth |
| Waterfall.PpForest | importtime_waterfall.py:56-60 | looping `pp` over a list of siblings prints one row per node of their subtrees |
| Waterfall.RowsOf | importtime_waterfall.py:46-55 | the row of every placed node, in order |
| Waterfall.PpIsPreOrder | importtime_waterfall.py:45-60 | `pp` prints one row per node in pre-order, each formatted at its depth |
| Waterfall.Graph | importtime_waterfall.py:42-61 | `graph` fails with a division by zero exactly when there is a terminal, the root has children and the maximum time is 0; otherwise it prints one row per module below the root |
| Waterfall.GraphRows | importtime_waterfall.py:46-55 | row i shows node i of the pre-order: its name and time indented two spaces per level; without a terminal it is plain text, and with one the red part plus the rest is that text padded to the width |
| Waterfall.BarLength | importtime_waterfall.py:49-53 | the two parts of a row make up the padded line, which is at least as wide as the terminal; for a non-negative time and a positive maximum, the red part is `time * width // max` characters, cut at the line's end |
| Waterfall.RedCharsExact | importtime_waterfall.py:51 | for a non-negative time and a positive maximum, the red length is floor division |
| Waterfall.BarWithinWidth | importtime_waterfall.py:49-52 | a time no larger than the maximum never colours more than the terminal width, and the maximum colours exactly the width |
| Waterfall.GraphBars | importtime_waterfall.py:42-61 | with a terminal and non-negative times, every red part fits in the width, and the slowest module's row is red across the whole width |
| Waterfall.ExampleMaxTime | importtime_waterfall.py:35-39 | with cumulative times, the maximum over the package example is the package's 3 |
| Waterfall.ExampleRows | importtime_waterfall.py:45-60 | `pp` of the package prints `pkg (3)` and then `  pkg.sub (2)` |
| Waterfall.GraphExample | importtime_waterfall.py:42-61 | a package importing a submodule, with cumulative times and no terminal, prints `pkg (3)` and then `  pkg.sub (2)` |
| HarExport.DeltaNormal | importtime_waterfall.py:93-94 | timedelta normalisation keeps seconds within a day and microseconds within a second, and it adds back up to the same amount |
| HarExport.EntryTime | importtime_waterfall.py:93-94 | an entry time is always at least 0 and under one day in milliseconds |
| HarExport.EntryTimeModDay | importtime_waterfall.py:93-94 | the entry time is the duration in milliseconds modulo one day: exact for any duration between zero and a day, and wrapped otherwise |
| HarExport.EntryOf | importtime_waterfall.py:92-129 | a module's entry is the module's name at its start time, `receive` is the self time, `wait` plus `receive` is the entry time, and the time lies within a day |
| HarExport.SelfTotalAppend | importtime_waterfall.py:88-91 | the total self time of two runs of modules is the sum of their totals |
| HarExport.DurationIsSelfTotal | importtime_waterfall.py:84-91 | `visit(x)` advances the clock by exactly the sum of the self times over x's subtree: the extra millisecond at the start is taken back at the end |
| HarExport.ForestDurationIsSelfTotal | importtime_waterfall.py:88-89 | visiting a run of siblings advances the clock by the sum of the self times over their subtrees |
| HarExport.VisitEntries | importtime_waterfall.py:81-133 | `visit(x)` appends one entry per module of x's subtree |
| HarExport.ForestDurationAppend | importtime_waterfall.py:88-89 | visiting two runs of siblings advances the clock by the sum of their durations |
| HarExport.ForestEntriesAppend | importtime_waterfall.py:88-89 | visiting two runs of siblings in turn lists the first run's entries, then the second run's entries starting where the first run ended |
| HarExport.OneMoreChild | importtime_waterfall.py:88-89 | one more iteration of the children loop adds that child's duration and entries |
| HarExport.Visit | importtime_waterfall.py:81-133 | `visit` advances the clock by the subtree's duration (one ms, the children, then self time less one) and appends exactly the subtree's entries: the children's, each starting where the previous ended, then the node's own |
| HarExport.Export | importtime_waterfall.py:64-135 | `har` fails exactly when the root has no children; otherwise the title names the last top-level import and the version, and the entries come from visiting the top-level imports from clock 0 |
| HarExport.EntriesArePostOrder | importtime_waterfall.py:81-135 | entry i is for module i of the post-order, and its `receive` timing is that module's self time |
| HarExport.SiblingEntry | importtime_waterfall.py:84-99 | sibling j's own entry comes right after the entries of its earlier siblings and its children, and starts after the earlier siblings' durations |
| HarExport.TimingsOfEntry | importtime_waterfall.py:93-130 | for a duration under a day, the entry's time is the whole duration, `wait` is the time spent in its imports, and `receive` is its self time |
| HarExport.PositiveChildren | importtime_waterfall.py:28-32 | when every module has positive self time, so do the root and each child's subtree |
| HarExport.PositiveDuration | importtime_waterfall.py:84-91 | with positive self times, visiting a module moves the clock forward |
| HarExport.ChildWithinParent | importtime_waterfall.py:84-91 | with positive self times, each child's window starts strictly after its parent's start and ends no later than its parent's end |

## Left out

- `best_of`, the subprocess run and the timing of six runs, one and then `n` = 5 more, keeping the
  strictly fastest (lines 141-158): process I/O and the clock. The model starts from the stderr lines.
- `splitlines()` of stderr (line 183): the model takes the list of lines.
- Command-line parsing (lines 162-176). The module name, `--include-interpreter-startup`, `--cumulative` and
  the choice between graph and HAR are parameters, or a choice between calling `Graph` and `Export`.
- Reading the terminal size (lines 21-25): the width is a parameter. `None` stands for a stdout that is not a
  terminal.
- colorama's escape codes and `print` (lines 53-55): a row is the red part and the rest, not the printed
  bytes.
- In `har`, the constant HAR fields, `json.dumps` and the `isoformat` timestamps (lines 66-79 and 96-132). An
  entry keeps the module name, its start as milliseconds after 1991-07-05 00:00, its time, and its `wait`
  and `receive` timings. `sys.version` is a parameter.
- `datetime` overflow for a clock taken outside years 1 to 9999, which raises `OverflowError`: it is not modelled.
- RedChars: `int(time / max_self_time * terminal_width)` uses floating point. The model divides exactly,
  then truncates toward zero. A float rounding can give one character fewer than the model or, for
  maxima beyond about 10^16 where the quotient rounds up to a whole number, one more.
- PyText.ParseInt: `int()` also accepts non-ASCII Unicode decimal digits. The model only accepts ASCII
  digits, so a field of such digits is skipped instead of read. The model also has no digit limit: in
  Python 3.11 and the 2022 security releases of 3.7 to 3.10, `int()` raises `ValueError` on a field of
  more than 4300 digits, so that line is skipped, while the model reads the number.
- Mutation through shared objects: in Python the stack and the tree hold the same `Import` objects. The
  arena of nodes with child ids models that sharing. `TreeBuilder.ToTree` gives back the tree as a value.
