# android-fuzz-tester, modelled in Dafny

android-fuzz-tester installs an Android application on one or more
devices and explores its user interface. For each device it builds an
exploration graph with three kinds of nodes:

- the application's package;
- each activity (screen) it reaches;
- one element node per clickable widget of a screen. Its id is the
  activity, the delimiter `___`, the lower-cased (ASCII) class name and the
  widget's position.

The driver visits unvisited nodes one at a time and dispatches on the
widget's capability:

- a text field gets typed text;
- otherwise a long-clickable widget gets a long click;
- otherwise a clickable or checkable widget gets a click;
- otherwise a scrollable widget gets a swipe.

When a visit leaves the activity, the node gets at most one second
visit, or the driver moves on to the next unvisited activity. At the end
of an attempt a verdict is written: hung, not in foreground, runtime
error, graph mismatch with the leader device, or success. A results
script reads the traversal logs and logcat dumps back. It collects the
UI nodes and the system service interfaces (SSIs) seen, accumulates them
over attempts, and reports the SSIs not seen before testing.

The model covers the following, one Dafny module per part:

- **ExplorationGraph** (`exploration_graph.dfy`): the exploration graph
  as a value.
  - The graph is a map from id to node plus a set of edges, with the
    graph library's `add_node`, `add_edge` and `remove_node` written
    out. `add_edge` on a missing endpoint creates an attribute-less
    `BareNode`, and `add_node` on an existing element keeps its
    `difference` mark.
  - The graph side of each driver operation is a function from the graph
    and the device's answers to the new graph and to what the operation
    returns or raises.
- **Driver** (`driver.dfy`): the `DeviceDriver` class. Its fields are the
  per-device dictionaries. Its methods update them in place, and each
  method's contract ties the new state to the graph functions. The
  driver reads each widget dump as attribute maps and runs
  `ClickableList` on it itself, so a dump node missing an attribute
  raises `KeyError` out of `add_new_activity` and `_visit_node`.
- **UiSnapshot** (`ui_snapshot.dfy`): `get_clickable_list` over the
  flattened `node` elements of a widget dump, given as attribute maps.
- **AdbParse**, **AaptParse** and **Commons** (`adb_parse.dfy`,
  `aapt_parse.dfy`, `commons.dfy`): the parsers over `adb` and `aapt`
  output. The regular-expression searches are written out as scans.
  These files also cover `adb devices` parsing, APK discovery, the
  tested-package exclusion and `find_first`.
- **LogParser** (`log_parser.dfy`): `find_ui` and `find_ssi`, the
  cumulative union over attempts, and the new-SSI difference.
- **Strings** and **Wrappers**: Python's string operations (`find`,
  `split`, `strip`, `lower` on ASCII, `str(int)`, `sorted` on strings), plus
  `Option` and `Result`.

The device's answers are parameters of the operations that read them:

- the foreground activity and package;
- the widget dump;
- the widget found for an element and its capabilities;
- the polls made while waiting after a back press;
- the random letters.

Exceptions are `Failure` values that carry the `KeyError` key where
Python would raise one. Several behaviours of the code are proved as
written:

- `get_next_nodes` uses a plain prefix test, so activity `X` also lists
  the nodes of `X2`.
- The root activity is inserted already visited. A first screen without
  widgets therefore leaves nothing to visit on the root
  (`ExplorationGraph.FirstScreenNothingPending`).
- `travel_node` raises `KeyError` on the node's id when its visit removed
  the node and the previous activity still has unvisited nodes
  (`Driver.LeaveRemovedNode`).
- `clean_device` raises `KeyError('visited')` while writing the log if
  the graph holds a bare node, and then resets nothing.
- Two widgets of one screen share an id when a class tag ends in a digit
  (`ExplorationGraph.ElementIdCollision`).
- The results script cuts an activity name that ends in `_` short
  (`LogParser.UiOfLineMisreads`).

## Model

| member | source | states |
|---|---|---|
| Strings.Sorted | src/device.py:332 | `sorted` over the node ids: strictly increasing in string order, and holding exactly the ids of the set |
| Strings.NatToStringInjective | src/device.py:229 | `str(idx)` gives different texts for different positions |
| Strings.StripLine | scripts/log_parser.py:48 | a line written as `text + "\n"` strips back to `text` when `text` has no whitespace at either end |
| Commons.FindApks | src/commons.py:29-39 | a path ending in `.apk` is returned alone; otherwise the result is the glob results with repeats dropped, in first-occurrence order (`Dedupe`) |
| Commons.DedupeSpec | src/commons.py:36-39 | the de-duplicated list has no repeats, the same elements as its input, and keeps the order of first occurrences |
| Commons.FoundApksSpec | src/commons.py:33-39 | the found APKs never repeat, and a directory's found APKs are exactly its glob results |
| Commons.GetDeviceSerials | src/commons.py:84-102 | a non-zero exit status is the `getDevices() failed!` error; otherwise the serials are collected line by line |
| Commons.SerialsOfLine | src/commons.py:96-101 | a line contributes a serial exactly when it lacks `List` and contains `device` |
| Commons.SerialsAppend | src/commons.py:96-101 | the serials of two blocks of lines are those of the first followed by those of the second |
| Commons.SerialOfSpec | src/commons.py:101 | a serial is its stripped line up to the first tab, or the whole line when it has none; so it has no tab and is a prefix of the line |
| Commons.RemoveFirst | src/commons.py:172 | `list.remove` drops exactly one copy of the element (as multisets) and keeps the others in order: the elements before its first occurrence stay in place and the later ones move down by one |
| Commons.PrepareApks | src/commons.py:154-173 | without exclusion the result is the found APKs; with exclusion it is what the remove-while-iterating sweep leaves (`Swept`) |
| Commons.SweepFromSwept | src/commons.py:169-172 | the sweep from a list position keeps the earlier elements and leaves `Swept` of the rest |
| Commons.SweepFromSweptTested | src/commons.py:169-172 | the same, at a position holding a tested APK, which the loop removes |
| Commons.SweepTestedUnfold | src/commons.py:170-172 | removing a tested APK moves the loop to the next position of the shortened list, which keeps no repeats |
| Commons.SweptSubsequence | src/commons.py:163-172 | the excluded list is a subsequence of the found APKs |
| Commons.SweptRemovesOnlyTested | src/commons.py:169-172 | every APK the sweep drops has its package in the ledger |
| Commons.SweepKeepsTestedNeighbour | src/commons.py:169-172 | of two consecutive tested APKs, the second survives the sweep |
| Commons.UntestedSpec | src/commons.py:169-172 | the intended exclusion keeps exactly the untested APKs, as a subsequence |
| Commons.PrepareApksIntendedSpec | src/commons.py:154-173 | with exclusion on, the intended result lists, in order, exactly the found APKs whose package is not in the ledger |
| Commons.FindFirst | src/commons.py:215-225 | the first match's text; no match gives `None` when `returnNone` is set and raises otherwise |
| UiSnapshot.Attr | src/uiautomator_utils.py:21 | `node.attrib[key]` succeeds exactly when the key is present, and otherwise fails with that key |
| UiSnapshot.ExamineSpec | src/uiautomator_utils.py:21-45 | a node raises exactly when a key the body reads is missing; it is kept exactly when it is clickable and not a navigation button; and it is projected to the five renamed attributes |
| UiSnapshot.GetClickableList | src/uiautomator_utils.py:15-46 | the loop's result, or the first `KeyError`, is `ClickableList` of the nodes |
| UiSnapshot.ClickableListStep | src/uiautomator_utils.py:20-45 | one more node extends the list by exactly what the loop body makes of it |
| UiSnapshot.FailureExtends | src/uiautomator_utils.py:20-45 | a `KeyError` at one node is the result of the whole pass |
| UiSnapshot.ClickableListSucceeds | src/uiautomator_utils.py:20-45 | the pass succeeds exactly when no node misses a key the body reads |
| UiSnapshot.KeptIndicesSpec | src/uiautomator_utils.py:20-45 | the kept indices are exactly the kept nodes, each once, in increasing order |
| UiSnapshot.ClickableListOrder | src/uiautomator_utils.py:20-45 | the output has one record per kept node, in document order, each the projection of its node, and is no longer than the input |
| UiSnapshot.ClickableListExcludes | src/uiautomator_utils.py:21-39 | a node with `clickable="false"` or a navigation-button id is never kept |
| UiSnapshot.NoSystemButtonRecords | src/uiautomator_utils.py:36-39 | no returned record has a back, home or recent-apps id |
| AdbParse.LastInSpec | src/adb_utils.py:106-108 | the scan for the last `}` of a range finds the last one, or reports that there is none |
| AdbParse.GreedyAtSpec | src/adb_utils.py:106-108 | at a keyword occurrence, `kw.*}` matches up to the last `}` on that line, and nothing matches there when the line has no `}` |
| AdbParse.SearchGreedySpec | src/adb_utils.py:106-108 | the search returns the leftmost position where a match succeeds |
| AdbParse.SearchFocusSpec | src/adb_utils.py:106-108 | a keyword has a match exactly when some position starts one |
| AdbParse.SearchFocusShape | src/adb_utils.py:106-108 | a match starts with the keyword, ends with `}` and holds no newline |
| AdbParse.WindowDumpsysPrecedence | src/adb_utils.py:100-116 | the `mCurrentFocus` match wins, then `mFocusedApp`, then `mObscuring`; the result is `''` exactly when none matches |
| AdbParse.LazyRunAtSpec | src/adb_utils.py:125-126 | after `Window{`, the lazy run ends at the first stop character, and none exists when a newline comes first |
| AdbParse.SearchLazySpec | src/adb_utils.py:125-126 | the search returns the leftmost marker occurrence whose run succeeds |
| AdbParse.WindowRunSpec | src/adb_utils.py:125-139 | a run exists exactly when some `Window{` occurrence has one, and the run returned is the leftmost one |
| AdbParse.WindowRunChars | src/adb_utils.py:125-139 | no character of the run is a stop character or a newline |
| AdbParse.ForegroundPackageNameSpec | src/adb_utils.py:118-130 | a package exists exactly when the run to `/` or `}` exists; it is the run's tail after the last space and holds no space, `/`, `}` or newline |
| AdbParse.ForegroundActivityNameSpec | src/adb_utils.py:133-139 | an activity exists exactly when the run to `}` is non-empty; it is the run's tail after the last `/` and holds no `/` |
| AdbParse.IsInForeground | src/adb_utils.py:148-159 | true exactly when the dump was obtained and its foreground package equals the package; a failed query gives false |
| AdbParse.SearchPatternSpec | src/adb_utils.py:80 | the search succeeds exactly when the pattern matches at some position, with `.` matching any character but a newline |
| AdbParse.IsInstalledWhenListed | src/adb_utils.py:75-80 | a listed `package:<name>` is reported installed |
| AdbParse.IsInstalledLiteral | src/adb_utils.py:75-80 | for a name without `.`, the check is exactly the substring test |
| AdbParse.IsInstalledWildcard | src/adb_utils.py:80 | a `.` in the name matches any character, so another listed package can be taken for it |
| AdbParse.IsInstalledPrefix | src/adb_utils.py:80 | a name is reported installed when only a longer package that it prefixes is listed |
| AdbParse.IsKeyboardNumeric | src/adb_utils.py:170-175 | true exactly when the output contains `Keyboard mode = 5` |
| AdbParse.IsKeyboardShown | src/adb_utils.py:196-201 | true exactly when the output contains `mInputShown=true` |
| AaptParse.QuotedRun | src/aapt_utils.py:24 | the run after the marker is the maximal run of non-`'` characters |
| AaptParse.FindAllRuns | src/aapt_utils.py:35 | the `findall` scan gives one run per marker occurrence, in text order |
| AaptParse.AllRunsFirst | src/aapt_utils.py:24 | there is a run exactly when the marker occurs, and the first run follows the first occurrence |
| AaptParse.AllRunsNoQuote | src/aapt_utils.py:35 | no run contains `'` |
| AaptParse.GetPackageNameSpec | src/aapt_utils.py:15-24 | the name is the quoted run after the first `package: name='`, and the call fails (`IndexError`) exactly when the marker is absent |
| AaptParse.GetLaunchableActivitiesSpec | src/aapt_utils.py:26-35 | one run per `launchable-activity: name='`, in order, `[]` exactly when there is none, and no name contains `'` |
| AaptParse.EmptyPackageName | src/aapt_utils.py:24 | a package name may be empty |
| ExplorationGraph.ElementIdExtends | src/device.py:228-229 | every element id starts with its activity and the delimiter, and is longer than that prefix |
| ExplorationGraph.ElementIdsExtend | src/device.py:228-229 | no element id of a screen equals its activity's id |
| ExplorationGraph.AddElementStep | src/device.py:230-232 | one widget sets or merges its element node and adds the edge from its activity |
| ExplorationGraph.ElementIdsStep | src/device.py:225-232 | the ids and edges of a snapshot are those of its prefix plus those of its last widget |
| ExplorationGraph.AddElementsShape | src/device.py:225-232 | the element loop adds exactly the snapshot's ids and the activity-to-element edges, and leaves every other node as it was |
| ExplorationGraph.AddElementsFresh | src/device.py:225-232 | every element node of the snapshot is unvisited, without a second visit, and keeps the `difference` mark it had |
| ExplorationGraph.AddElementsUi | src/device.py:225-232 | an element node carries its widget's attributes when no later widget of the screen has the same id |
| ExplorationGraph.NewActivityUnchanged | src/device.py:197-206 | a known activity, or a foreground package other than the application's, leaves the graph unchanged |
| ExplorationGraph.NewActivityWithoutActivity | src/device.py:208-212 | with no foreground activity, adding `None` as a node raises, after the package node is added if it was missing |
| ExplorationGraph.NewActivityFirstScreen | src/device.py:208-232 | on a graph without the package: a visited package node, a visited activity node, the edge between them and the screen's elements; nothing else changes |
| ExplorationGraph.NewActivityLaterScreen | src/device.py:215-232 | otherwise: one unvisited activity node, an edge from `pre_node` only when one is given (a bare node if it is gone), and the elements |
| ExplorationGraph.InsertedLater | src/device.py:215-220 | a later activity is one unvisited node, with an edge from `pre_node` when one is given (a bare node if it is gone); no existing node changes |
| ExplorationGraph.NewActivityElements | src/device.py:222-232 | each widget has an unvisited element node under its id, without a second visit, reached from the activity, and carrying the widget when its id is not reused later |
| ExplorationGraph.FirstScreenNothingPending | src/device.py:208-214 | a first screen without widgets yields exactly the package and root nodes and their edge, and nothing unvisited under the root |
| ExplorationGraph.DigitSuffix | src/device.py:228-229 | a text ending in a digit run splits back uniquely when the part before the digits ends in no digit |
| ExplorationGraph.ElementIdInjective | src/device.py:228-229 | within one activity, equal ids come from the same position and class tag when no class tag ends in a digit |
| ExplorationGraph.SplitNoDot | src/device.py:229 | a class name without `.` is its own last segment |
| ExplorationGraph.ElementIdCollision | src/device.py:228-229 | widget 1 of class `B1` and widget 11 of class `B` get the same id |
| ExplorationGraph.FindFromAt | scripts/log_parser.py:48 | the delimiter search finds the first occurrence |
| ExplorationGraph.SplitOnDelimiter | scripts/log_parser.py:48 | two delimiter-free parts, the first not ending in `_`, split back into those parts |
| ExplorationGraph.NoDelimiterWithDigits | src/device.py:228-229 | digits appended to a delimiter-free class tag keep it delimiter-free |
| ExplorationGraph.ElementIdSplit | src/device.py:228-229 | an element id splits on the delimiter into its activity and its tag with position, under the same conditions |
| ExplorationGraph.DispatchPrecedence | src/device.py:578-598 | text field, then long click, then click or check, then swipe, else none; each is chosen exactly when its capability holds and no earlier one does |
| ExplorationGraph.ResourceIds | src/device.py:567-568 | the list of resource ids of the live widgets, position by position |
| ExplorationGraph.VisitMissing | src/device.py:551-553 | a node not in the graph: nothing changes and `None` is returned |
| ExplorationGraph.VisitActivity | src/device.py:570-571 | an activity node is only marked visited; the result says whether the device is still on the node's activity |
| ExplorationGraph.VisitStale | src/device.py:572-573 | an element whose resource id is no longer on the screen is removed with its edges |
| ExplorationGraph.VisitElement | src/device.py:575-601 | an element that does not exist gets the `difference` mark and stays unvisited; an action marks it visited; no capability removes it and returns `None` |
| ExplorationGraph.VisitMarks | src/device.py:570-601 | a visit never clears `visited` or `second_visit`, and newly marks visited only the visited activity or an element whose action was carried out |
| ExplorationGraph.NextActivitySpec | src/device.py:537-544 | the activity chosen is the least unvisited activity in sorted order; `None` exactly when there is none; a bare node first in order raises |
| ExplorationGraph.LeaveRevisit | src/device.py:250-263 | a second visit happens exactly when the previous activity still has unvisited nodes and the node has not had its second visit; it only makes the node unvisited with `second_visit` set |
| ExplorationGraph.LeaveAtMostOnce | src/device.py:254-258 | a node re-visited once is never re-visited again |
| ExplorationGraph.LeaveMoves | src/device.py:260-263 | with no unvisited node left on the previous activity, the current activity becomes the next unvisited activity |
| ExplorationGraph.WriteLogVerdictPrecedence | src/device.py:477-492 | failure 1 exactly when the device is missing, then 2 for a foreground package other than the APK's, then 3 for `E/AndroidRuntime` in the dump, then 4 for a non-isomorphic leader graph; success only when all checks pass |
| ExplorationGraph.IsomorphicReflexive | src/device.py:486-487 | every graph is isomorphic to itself |
| ExplorationGraph.InjectiveCard | src/device.py:486-487 | an injective node mapping has as many images as nodes |
| ExplorationGraph.IsomorphicSameSize | src/device.py:486-487 | isomorphic graphs have the same number of nodes |
| ExplorationGraph.MismatchOnSize | src/device.py:486-489 | in leader mode, a graph with a different number of nodes than the leader's is a graph mismatch when nothing earlier failed |
| Driver.SharedTextStable | src/device.py:581-585 | the shared text is ten letters and, once drawn, is kept for the rest of the round |
| Driver.BackToSpec | src/device.py:303-310 | the wait ends on the first poll showing another activity, raises on the first poll showing another package while still on the activity, and times out only when every poll stayed put |
| Driver.BackToArrives | src/device.py:303-310 | a wait that ends has reached a poll showing another activity, after polls that all stayed |
| Driver.BackToRaises | src/device.py:303-310 | a wait that raises has reached a poll showing another package on the same activity, after polls that all stayed |
| Driver.BackToTimeout | src/device.py:303-310 | the wait times out exactly when every poll stayed |
| Driver.FirstIdleSpec | src/device.py:344-348 | the device chosen is idle and every device before it is busy; none is chosen only when all are busy |
| Driver.TravelNotForeground | src/device.py:239-240 | the application out of the foreground ends the call before anything changes |
| Driver.NewScreenWellFormed | src/device.py:222-232 | on a dump whose every node has the attributes read, `add_new_activity` changes the graph as `NewActivity` does on the dump's clickable list |
| Driver.NewScreenKeyError | src/device.py:222-223 | a new screen of the application whose dump has a node missing an attribute raises `KeyError`, with its activity (and package) added and none of its elements |
| Driver.VisitScreenWellFormed | src/device.py:552-567 | on a well-formed dump, `_visit_node` changes the graph as `Visit` does on the dump's clickable list |
| Driver.VisitScreenKeyError | src/device.py:565-566 | visiting an existing node while the dump has a node missing an attribute raises `KeyError` and leaves the graph as it was |
| Driver.LeaveRemovedNode | src/device.py:251-255 | a node removed by its own visit ends the call with a `KeyError` on its id when the previous activity still has unvisited nodes |
| Driver.AddElementNodes | src/device.py:225-232 | the element loop's graph is `AddElements`, whose shape `ExplorationGraph.AddElementsShape` states |
| Driver.DeviceDriver.constructor | src/device.py:35-51 | one entry per connected device, without repeats, each idle; every other dictionary empty |
| Driver.DeviceDriver.PrepareDevice | src/device.py:70-78 | the APK is recorded as running and the graph reset to empty; the result is the install's outcome, and the attempt number is stored as text only when the install succeeded; nothing else changes |
| Driver.DeviceDriver.InstallApk | src/device.py:400-423 | an APK without a package name raises `IndexError`; otherwise the install raises `INSTALL_FAILED` exactly when the package list read afterwards does not match `package:<name>` (src/adb_utils.py:55-64) |
| Driver.InstallListed | src/adb_utils.py:60-64 | an install whose package list names the APK's package succeeds |
| Driver.DeviceDriver.CleanDevice | src/device.py:119-145 | the verdict is `WriteLogVerdict` on the APK's package name, then the device's attempt, graph and current activity are cleared and its APK forgotten after the last attempt. Before any reset, in the source's order, it raises: `IndexError` for an APK without a package name, `KeyError('visited')` for a bare node, and `KeyError` on the serial or `TypeError` when the device has no attempt number (src/device.py:474-475), as after an install that raised; a raise resets nothing. It succeeds exactly when none of these applies |
| Driver.DeviceDriver.AddNewActivity | src/device.py:193-232 | the current activity becomes the one on screen, also when the call raises; the graph and result are `NewScreen`'s, including the `KeyError` of a malformed dump read after the activity is added |
| Driver.DeviceDriver.VisitNode | src/device.py:547-607 | the graph and result are `VisitScreen`'s: a missing node returns `None`, a malformed dump raises `KeyError`, otherwise `Visit` on the clickable list; typing into a text field draws the shared text only when none was drawn; the current activity is untouched |
| Driver.DeviceDriver.VisitElementNode | src/device.py:572-607 | for an element node and the clickable list `_visit_node` computed, the graph and result are `Visit`'s, and the shared text is drawn only for a text field when none was drawn |
| Driver.DeviceDriver.UpdateAttr | src/device.py:530-534 | a missing node raises `KeyError` on its id and changes nothing; otherwise only that node's attribute changes |
| Driver.DeviceDriver.PressBack | src/device.py:299-310 | the wait's outcome is `BackTo` of the polls; once it ends, the foreground activity read again afterwards becomes current, and a raise changes nothing |
| Driver.DeviceDriver.GetIdleDevice | src/device.py:340-350 | the first idle device in dictionary order is chosen and given the APK; nothing else changes |
| Driver.DeviceDriver.GetNextNodes | src/device.py:325-338 | `[]` for no activity; otherwise, sorted, exactly the unvisited nodes whose id starts with the activity's; a bare node under that prefix raises |
| Driver.DeviceDriver.GetVisitedNodes | src/device.py:352-361 | sorted, exactly the visited nodes; raises exactly when a bare node exists |
| Driver.DeviceDriver.NextActivity | src/device.py:537-544 | the loop returns `NextActivityOf`, the least unvisited activity, as `ExplorationGraph.NextActivitySpec` states |
| Driver.DeviceDriver.ResetSharedText | src/device.py:297 | after a round the shared text is empty again; nothing else changes |
| Driver.DeviceDriver.TravelNode | src/device.py:234-263 | the graph and result are `Travel`'s, with a second visit reported only once the back press arrived. On every path, failures included, only this device's current activity changes: not at all when the application is not in the foreground, to the first screen's activity unless the visit left, and otherwise to `LeftAt` (the next activity, the activity `press_back` reads once its wait has ended, or the screen the visit led to). The shared text is drawn exactly when the visit types into a text field and none was drawn |
| Driver.DeviceDriver.VisitAndLeave | src/device.py:244-263 | after the first screen is added, the graph and result are `AfterAdding`'s; the current activity changes only when the visit left, to `LeftAt`, which takes the activity `press_back` reads after its wait; the shared text as in `VisitNode` |
| Driver.DeviceDriver.GrantSecondVisit | src/device.py:254-259 | the node becomes unvisited with `second_visit` set, then back is pressed; the result is `BackTo`'s failure or the second visit; after a wait that ends, the activity read again becomes current, and a failed back press leaves every current activity as it was |
| Driver.DeviceDriver.LeaveActivity | src/device.py:251-263 | after a visit that left the activity, the graph and result are `AfterLeaving`'s; only this device's current activity changes, to `LeftAt`: the next activity, the activity `press_back` reads after its wait, or, when the call raises, the screen the visit led to |
| LogParser.FindUi | scripts/log_parser.py:44-54 | a pair is found exactly when some stripped line splits on `___` into exactly that pair |
| LogParser.UiOfElementLine | scripts/log_parser.py:47-52 | a traversal-log line for an element reads back as its activity and its tag with position, when the activity holds no delimiter, does not end in `_` and does not start with whitespace |
| LogParser.SplitWithout | scripts/log_parser.py:48 | a line without the delimiter splits into itself |
| LogParser.UiOfActivityLine | scripts/log_parser.py:48-50 | a traversal-log line for an activity gives nothing |
| LogParser.UiOfLineMisreads | scripts/log_parser.py:48-52 | an element of activity `x_` reads back as activity `x`, with the element part gaining a leading `_`, whenever `x` holds no delimiter and does not end in `_` |
| LogParser.UiOfSplit | scripts/log_parser.py:48-52 | a line whose stripped text splits into exactly two parts gives that pair |
| LogParser.CollectSpec | scripts/log_parser.py:44-54 | an item is collected from a list exactly when some entry yields it |
| LogParser.FindSsi | scripts/log_parser.py:20-40 | a triple is found exactly when some line passes the process-id filter and the pattern yields it on the stripped line |
| LogParser.SsiPidFilter | scripts/log_parser.py:27-28 | with a non-empty process id only lines mentioning it count; with none or an empty one every line counts |
| LogParser.Cumulate | scripts/log_parser.py:113-132 | succeeds exactly when the sorted attempts are 0, 1, 2, … without a gap, and then entry `k` is the union of attempts 0 to `k`; otherwise `IndexError` |
| LogParser.UnionUpToMonotone | scripts/log_parser.py:117-132 | each cumulative entry contains the earlier ones |
| LogParser.UnionUpToSpec | scripts/log_parser.py:117-132 | an item is in entry `k` exactly when some attempt up to `k` found it |
| LogParser.CountsNondecreasing | scripts/log_parser.py:147-148 | the printed counts per attempt never decrease |
| LogParser.SubsetCard | scripts/log_parser.py:147-148 | a subset is no larger than its superset |
| LogParser.SsiNew | scripts/log_parser.py:134-138 | the new SSIs are exactly those of the last cumulative entry not seen before testing; no entry is `IndexError` |

## Left out

- Running `adb` and `aapt` is not modelled: process execution, install,
  uninstall, reboot, `logcat` capture, `force_stop` and bringing the
  application to the foreground are I/O. Their outputs are the strings
  the parsers take.
- The widget-tree library is not modelled: the XML parse and the
  `dump`, `click`, `set_text`, `swipe` and `press.back` calls are
  foreign. A dump is a sequence of attribute maps, and the widget found
  for an element is a `Widget` value of capabilities.
- Threads and timers are not modelled: the `*_all` methods,
  `thread_start`/`thread_join`, `run_thread_timer` and `run_signal_timer`
  exist for concurrency. Only the reset of the shared text after a round
  (`ResetSharedText`) is kept.
- `init_test`'s wait for the foreground and `allow_permission_popup` are
  not modelled: both depend on a stream of live screens. Visits are
  modelled as if no permission dialog appears.
- The random mode of `travel_node` (src/device.py:264-275) and the
  `root_activity` dictionary are not modelled; only the non-random
  decision is.
- Interactive and file-writing code is not modelled, because it is I/O:
  `_select_leader`, `print_settings`, `_draw_graph`, the logger, the log
  directories, the result and traversal log files, and `write_tested_pkg`.
- main.py is not modelled: it only sequences the driver's calls. From
  src/config.py only the delimiter `___` is used.
- The graph comparison `nx.is_isomorphic` is the library's: the verdict
  takes its answer as a boolean. `Isomorphic` states what it means, for
  the node-count lemma.
- The logcat regular expression of `find_ssi` is a parameter, a function
  from a stripped line to its match.
- The results script's CDF values use floating point and are not
  modelled. Neither are its directory walking and printing, which are
  I/O.
- Decoding with `errors='ignore'` is not modelled: texts are taken as
  already decoded.
- Broken or unused helpers are not modelled: `get_power_level` and
  `is_wifi_connected` call `decode` on a `str`, `type_random_text` uses a
  variable before it is assigned, and `adb_root` and
  `package_is_running` are not used by the core.
- ExplorationGraph.Merge: `add_node` on an id that holds a node of
  another kind keeps the old node's extra keys in networkx; the model
  replaces the node. The driver never re-adds an id as a different kind
  unless an activity id equals an element or package id.
- Driver.DeviceDriver.UpdateAttr: setting an attribute that the node's
  kind lacks (such as `visited` on a bare node) leaves the node unchanged
  in the model. In Python the node's dictionary would gain the key.
  `travel_node` and `_visit_node` only set attributes the node already
  has.
- Driver.DeviceDriver.GetIdleDevice: makes one pass over the devices and
  returns `None` when all are busy. The source sleeps and scans again
  until a device is free.
- Driver.DeviceDriver.PressBack: the polls are a finite sequence.
  Running out of them is reported as `Timeout`, which stands for the
  attempt's timer firing.
- AdbParse.IsInstalled: only `.` is treated as a regular-expression
  metacharacter of the package name. Android package names hold only
  letters, digits, `_` and `.`.
- The `difference` attribute's value `"deleted"` is a boolean mark.
- Before installing, `_install_apk` checks whether the package is
  already installed. With `KEEP_INSTALLED_APP` false (src/config.py:15)
  that check only decides whether to uninstall first, which is I/O, so
  `Driver.DeviceDriver.InstallApk` takes only the package list read after
  installing.
- Strings.Lower: only the ASCII letters `A`–`Z` are lower-cased. Class
  names are taken as ASCII, and Python's Unicode case mapping (which can
  also change a string's length) is not modelled. This affects
  `ExplorationGraph.ClassTag` and the element ids built from it.

## Findings

| source | as written | input that shows it | evidently intended | confidence | as-written member | corrected member |
|---|---|---|---|---|---|---|
| src/commons.py:169-172 | `apks.remove(apk)` while iterating `apks` moves the next APK into the slot just examined, so it is never checked | two found APKs `a.apk`, `b.apk` whose packages are both in the tested ledger: the result is `["b.apk"]` | every APK whose package was tested is dropped | not executed; follows from Python's list-iterator semantics | Commons.SweepKeepsTestedNeighbour | Commons.PrepareApksIntendedSpec |
