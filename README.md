# Settings page controller and define guard, in Dafny

This project models two pieces of the firmware project of a network-attached
lighting (DMX) controller.

- **The settings page controller** (`data/script.js`). This is the browser
  script behind the device's configuration page. It holds three globals:
  - `cl`, the tab on show;
  - `num`, the tab requested;
  - `err`, set once the device has answered badly.
  It also holds the tab panels, the error panel and the named form controls.
  On these it runs:
  - `sendData`, which serialises the current tab into a JSON request;
  - `menuClick`;
  - `handleAJAX`, which switches tabs and writes a reply back onto the
    controls;
  - `reboot` and its reply;
  - the Enter-key handler;
  - the firmware-update sequence (`uploadPrep` → `uploadWait` → `upload`).
- **`surround_with_ifndef`** (`pre_extra_script.py`). This build step wraps
  every `#define NAME` line of a library header in an `#ifndef NAME` /
  `#endif` pair, unless the line before it already guards it.

## Modules

| File | Module | Contents |
|---|---|---|
| `values.dfy` | `JsValues` | JSON values; `String(v)`, `ToNumber` and the loose `==` the page relies on |
| `dom.dfy` | `Dom` | Element markup and control state; the `getElementsByName` and `getElementsByTagName` lookups; the rank of an element within its name |
| `serialise.dfy` | `FormSerialise` | The request `sendData` builds, as a function, with its lemmas |
| `decode.dfy` | `FormDecode` | The effect of each reply member on the controls, as functions, with their lemmas |
| `settings_page.dfy` | `SettingsPage` | The `Page` class, whose methods and loops follow the script statement by statement and are proved against the functions above |
| `firmware_update.dfy` | `FirmwareUpdate` | The update sequence as a state datatype with a transition function over events |
| `ifndef_guard.dfy` | `IfndefGuard` | `surround_with_ifndef`: the index loop and the reverse insertion loop, proved against a specification of the output |

### Document model

- The document is a fixed sequence of `Element` markup with a parallel
  sequence of `Control` states.
- `getElementsByName(name)[z]` is the element of that name with rank `z`,
  where the rank is the number of same-named elements before it
  (`Dom.NamedRanks`). So every write the script makes through such a list is
  stated element by element.

### Behaviours that follow the code

- **A select named `page`.** Inputs never override the preset `page` key,
  because the input loop skips names already present. The select loop does
  not skip, so a select named `page` would replace `page: num`.
  `FormSerialise.RequestStamps` therefore promises `page == num` only when
  no select of the tab is named `page`. `success: 1` is always written last.
- **Which tab is revealed.** A successful reply reveals tab `num`, the
  latest tab requested, not a tab named in the reply.
- **Reboot and the current tab.** `reboot` hides tab `cl` and shows tab 0,
  but it leaves `cl` as it was. Its `err = 0` cannot change anything,
  because the function returns earlier whenever `err` is 1. As a result,
  after a reboot from a tab other than 0, tab 0 is shown while `cl` names
  another tab. `Page.Reboot` states exactly this new state; it does not
  claim that only the current tab is shown.
- **The Enter key.** It sends the tab's data only when `2 <= cl <= 6`, and
  is guarded by nothing else.

## Model

| member | source | states |
|---|---|---|
| JsValues.NumberTextRoundTrip | data/script.js:294-300 | The text `String(n)` of an integer reads back as `n` under `ToNumber`, and it is loosely equal (`==`) to `n` |
| Dom.Select | data/script.js:146-168 | A tab's input or select lookup lists every matching element exactly once, in document order |
| Dom.NamedRanks | data/script.js:238-240 | `getElementsByName(name)` has one entry per element of that name; its entry `z` is the element of rank `z` |
| FormSerialise.WalkKeepsKey | data/script.js:149 | First occurrence wins: a key already in the request keeps its value, whatever inputs follow |
| FormSerialise.WalkVisit | data/script.js:150-166 | An input with a new name adds an entry. A composite anchor adds the list of four values: its own, then those of the next three inputs in document order. A text input adds its value verbatim. A number input adds `0` when empty and its value otherwise. A checkbox adds 1 when checked and 0 otherwise |
| FormSerialise.WalkOrigin | data/script.js:146-167 | Every key the input loop adds is the name of one of the tab's inputs |
| FormSerialise.WalkFails | data/script.js:150-154 | The input loop throws only at a composite anchor that has fewer than three inputs after it |
| FormSerialise.SelectsFrame | data/script.js:168-170 | A key that names none of the remaining selects is left as it was |
| FormSerialise.SelectsGrow | data/script.js:168-170 | The select loop only adds or overwrites keys; it removes none |
| FormSerialise.SelectsLastWins | data/script.js:168-170 | Selects are not de-duplicated: the last select of a name decides that name's value |
| FormSerialise.SelectsFail | data/script.js:169 | The select loop throws if and only if some select of the tab has no selected option |
| FormSerialise.RequestStamps | data/script.js:143-171 | A posted request has `success == 1` and a `page` key. `page == num` holds unless one of the tab's selects is named `page` |
| FormDecode.Lookup | data/script.js:208-217 | `response[key]` is the value of a member with that key, or `undefined` when there is none |
| FormDecode.LookupDistinct | data/script.js:208-217 | In a parsed reply, which has one member per key, `response[key]` is the value of the member carrying that key |
| FormDecode.FirstMatch | data/script.js:299-304 | Returns the first option from `y` on whose value loosely equals the reply value, or reports that no option matches |
| FormDecode.Decode | data/script.js:287-306 | A checkbox becomes checked iff the value `== 1`; nothing else of it changes. A select moves to the first option that matches and is unchanged when none matches |
| FormDecode.FieldFrame | data/script.js:236-309 | One reply member writes only the elements named after its key, its `T` mirror, and the controls its port-mode rule governs |
| FormDecode.FieldsFrame | data/script.js:236-309 | An element that no reply member touches keeps its state through the whole reply |
| FormDecode.PortAVisibility | data/script.js:261-275 | `portAmode == 3` shows both `portApix` controls and hides them otherwise. `portAmode == 2` shows `DmxInBcAddrA` and hides it otherwise |
| FormDecode.PortBVisibility | data/script.js:276-285 | `portBmode == 3` shows both `portBpix` controls and hides them otherwise |
| FormDecode.InputRoundTrip | data/script.js:158-166 | Decoding a text or checkbox input from its own serialisation leaves it unchanged. A number input is also unchanged, except that an empty one reads `0` |
| FormDecode.SelectRoundTrip | data/script.js:298-304 | A select decoded from its own selected value moves to the first option with that value. When option values are distinct, that is its own option |
| FormDecode.QuadRoundTrip | data/script.js:255-258 | A four-part value read from four consecutive inputs writes the same values back into them |
| FormDecode.DottedQuad | data/script.js:239-246 | The mirror text of four parts is the parts joined by `" . "` |
| SettingsPage.FindOption | data/script.js:299-304 | The option loop returns exactly `FirstMatch`: the first matching option, or none |
| SettingsPage.Page.constructor | data/script.js:1-3 | The page starts with `cl == 0`, `num == 0` and `err` clear |
| SettingsPage.Page.SendData | data/script.js:142-171 | The request posted equals `Serialise` of the current tab, or is `None` when the script throws first |
| SettingsPage.Page.ReadInputs | data/script.js:146-167 | The input loop, including the index advanced inside the composite loop, computes `WalkInputs` |
| SettingsPage.Page.ReadComposite | data/script.js:150-156 | The composite loop yields the anchor's value and the next three inputs' values and moves the index past them. When fewer than three inputs follow, the script throws (`None`) |
| SettingsPage.Page.ReadSelects | data/script.js:168-170 | The select loop computes `WalkSelects` |
| SettingsPage.Page.MenuClick | data/script.js:182-200 | Ignored while `err` is set. Otherwise `num := n`, and the request is `{page: n, success: 1}` |
| SettingsPage.Page.HandleResponse | data/script.js:203-316 | A non-200 status, a reply without `success`, or `success != 1` leaves the controls untouched. It sets `err`, hides tab `cl` and shows the error panel, with the reply's message in the last case. A success hides tab `cl`, shows tab `num`, sets `cl := num` and applies every member in order. Both paths keep "only the current tab is shown". The reply has one member per key, as `JSON.parse` produces |
| SettingsPage.Page.ApplyMember | data/script.js:238-307 | One reply member changes the controls exactly as `ApplyField` says |
| SettingsPage.Page.WriteMirroredQuad | data/script.js:239-247 | `ipAddress`/`subAddress`: the four parts go into the first four elements of the name, and their dotted join into the first element named `key + "T"` |
| SettingsPage.Page.WriteMirror | data/script.js:248-254 | `bcAddress`: the dotted join of the four parts goes into the first element of the name |
| SettingsPage.Page.AppendPart | data/script.js:243-245 | One round of a mirror loop turns the mirror text for `z` parts into the text for `z + 1` parts |
| SettingsPage.Page.WriteQuad | data/script.js:255-260 | The four parts go into the first four elements of the name |
| SettingsPage.Page.SetDisplay | data/script.js:265-274 | One `style.display` write shows or hides the element of the given rank, extending the rule by one element |
| SettingsPage.Page.ShowPixels | data/script.js:264-270 | Both pixel-count controls of a port are shown together or hidden together |
| SettingsPage.Page.PortARuleApply | data/script.js:261-275 | Port A's visibility writes equal `PortARule` |
| SettingsPage.Page.PortBRuleApply | data/script.js:276-285 | Port B's visibility writes equal `PortBRule` |
| SettingsPage.Page.WriteNamed | data/script.js:286-307 | Every element named `key` is decoded by its kind, and only those |
| SettingsPage.Page.DecodeElement | data/script.js:287-306 | One element of the generic loop changes exactly as `Decode` says: a P or DIV gets its text, a checkbox its check, another input its value, and a select its first matching option |
| SettingsPage.Page.Reboot | data/script.js:108-118 | Posts a request iff `err` is clear and the user confirms. When it posts, it hides tab `cl`, shows tab 0 and resets the panel to "Rebooting", clearing an earlier failure notice; otherwise nothing changes |
| SettingsPage.Page.RebootReply | data/script.js:119-134 | The notice turns to failure unless the reply parses with `success == 1`. A reload is scheduled either way |
| SettingsPage.Page.KeyDown | data/script.js:326-330 | Data is sent iff `2 <= cl <= 6` and the key is Enter. The request sent is `Serialise` of the current tab |
| FirmwareUpdate.Percent | data/script.js:99 | The percentage is the exact ceiling of `100 * loaded / total` |
| FirmwareUpdate.Step | data/script.js:12-106 | Clicking with no file is a no-op. Preparing proceeds iff `success == 1 && doUpdate == 1`; otherwise the sequence goes back to idle with the button re-enabled, "Upload Now" and the failure notice. A poll moves to the upload iff `success == 1` and otherwise goes back to waiting. A successful upload sets the label to the message and schedules one reload. A failed upload goes back to idle with the button re-enabled, "Upload Now" and the failure notice followed by the reply's message. A reload is scheduled only by a successful upload reply. The disabled/phase invariant is kept |
| FirmwareUpdate.RetryForever | data/script.js:45-68 | Any number of polls that report "not ready" leave the sequence waiting, exactly as before; there is no retry limit |
| FirmwareUpdate.ReadyStartsUpload | data/script.js:58-71 | After any number of failed polls, the first successful poll starts the upload with the label "Uploading… 0%" |
| FirmwareUpdate.RunConsistent | data/script.js:16-106 | Over any sequence of events, the button is disabled exactly while a step is pending, and a reload is scheduled exactly at the end |
| FirmwareUpdate.ReloadNeedsSuccess | data/script.js:86-90 | From any state, a run of events that schedules a reload contains an upload reply with `success == 1` |
| FirmwareUpdate.AtMostOneReload | data/script.js:86-90 | From the page as loaded, at most one reload is ever scheduled, and only when one of the events is a successful upload reply |
| FirmwareUpdate.PercentBelowHundred | data/script.js:99-101 | The rounded-up percentage is below 100 iff at most 99% has been sent |
| FirmwareUpdate.ProgressComplete | data/script.js:98-103 | The label reads "Upload complete. Processing…" iff more than 99% has been sent or the total is 0. Otherwise it reads "Uploading... p%" |
| IfndefGuard.Prev | pre_extra_script.py:39 | `lines[i-1]` names a line of the file; at `i == 0` it wraps to the last line |
| IfndefGuard.CollectIndexes | pre_extra_script.py:37-40 | The first loop collects an index iff its line matches `\s*#define\s+NAME` and the line before it (the last line, for index 0) does not match `\s*#ifndef\s+NAME`. The indexes are in increasing order |
| IfndefGuard.InsertInReverse | pre_extra_script.py:45-47 | The reverse insertion loop produces the specified output: each selected line wrapped, every other line kept |
| IfndefGuard.ReverseStep | pre_extra_script.py:45-47 | Processing indexes in descending order means each insertion index still names the original line |
| IfndefGuard.SurroundWithIfndef | pre_extra_script.py:32-50 | The file is rewritten iff some line is selected. The result is `Surround`, and it is the unchanged input when nothing is selected |
| IfndefGuard.NoSelectionUnchanged | pre_extra_script.py:42-43 | With no selected line, the lines are unchanged |
| IfndefGuard.SurroundLength | pre_extra_script.py:45-47 | The output length is the input length plus twice the number of selected lines |
| IfndefGuard.SurroundLayout | pre_extra_script.py:45-47 | Every original line appears in the output, in its original relative order. Each selected line sits directly between `#ifndef NAME` and `#endif` |
| IfndefGuard.OnlyGuardsAdded | pre_extra_script.py:46-47 | Every output line is an original line at its position, `#ifndef NAME`, or `#endif` |
| IfndefGuard.DefineIsNotIfndef | pre_extra_script.py:38-39 | No line matches both the define pattern and the guard pattern |
| IfndefGuard.IfndefLineGuards | pre_extra_script.py:39-47 | The inserted `#ifndef NAME` line matches the guard pattern |
| IfndefGuard.GuardLinesAreNotDefines | pre_extra_script.py:38-47 | Neither inserted line matches the define pattern |
| IfndefGuard.DefinePreceded | pre_extra_script.py:37-47 | In the output, every line that defines NAME is preceded by a line matching the guard pattern |
| IfndefGuard.Idempotent | pre_extra_script.py:39-47 | The output selects no line, so a second run changes nothing and does not rewrite the file |

## Left out

- **Transport and timers.** `XMLHttpRequest`, `JSON.parse`, `setTimeout`,
  `location.reload`, `confirm` and `console.log` are not modelled. Replies
  are parameters and events: `None` stands for a body that does not parse.
  Timers are events, and reloads are counters.
- **Readiness of a reply.** Callbacks with a `readyState` other than DONE do
  nothing and are not modelled.
- **The unguarded parse in `handleAJAX`.** On a 200 reply,
  `JSON.parse(x.responseText)` is not guarded. A malformed body throws and is
  outside the model, so `Page.HandleResponse` receives the reply already
  parsed, as a list of members.
- **The optimistic tab-hide timer.** The 100 ms timer of `menuClick`
  (data/script.js:185-190) is a timing race with the reply and is left out.
- **Presentation.**
  - The save buttons' message and its 5-second revert.
  - The texts of the reboot panel.
  - The file-name label of the upload input.
- **Throws while writing a reply.** `handleAJAX` throws when an element it
  indexes does not exist: fewer than four elements of a four-part name, no
  mirror, no `portApix` pair. The model requires such replies to be
  decodable (`FormDecode.Decodable`) rather than modelling the partial
  writes that happen before the throw.
- **The `in` operator.** `k in d` also sees `Object.prototype` names such as
  `constructor`. The model treats `d` as a plain map, so such a name is not
  treated as already present.
- **JSON and browser details.**
  - Key order and integer-like keys in the request object.
  - Nested objects and `null` in replies.
  - Floating-point numbers: `ToNumber` covers only optional-minus decimal
    integers.
  - Writing to `innerHTML` is modelled as setting plain text.
  - Browser sanitisation of a number input's `value`.
  - Writing `value` to an element that is not an input is modelled as
    changing that element's `value` field.
- SettingsPage.Page.MenuClick: requires `n` to name an existing tab. The
  menu only offers existing tabs. For any other `n`, the script's
  `handleAJAX` hides the current tab and then throws at `o[num]`
  (data/script.js:233-234); that partial state is not modelled.
- **Number spellings.** `ToNumber` reads only an optional minus and decimal
  digits (and the empty string as 0). JavaScript also reads `" 1"`, `"+1"`,
  `"1.0"`, `"0x1"` and `"1e0"` as numbers. In the model these spellings
  compare unequal to 1 in checkbox decoding (data/script.js:294) and in
  option matching (data/script.js:300), where the browser would find them
  equal.
- FirmwareUpdate.Percent: `Math.ceil` of the floating-point quotient is
  modelled as an exact integer ceiling. A quotient that rounds differently
  in binary floating point is not captured. A zero total reads "complete",
  as `NaN` and `Infinity` do.
- **The button while disabled.** A click on the disabled update button is
  never delivered by the browser, so `Step` ignores it; the script itself
  does not check the button.
- **The rest of `pre_extra_script.py`.**
  - The library rewrite.
  - The PlatformIO environment loop.
  - The web-source minifier.
  - The file open, read and write inside `surround_with_ifndef`: the file is
    modelled as its list of lines, and the write as the `rewritten` flag.
- **A file without a final newline.** When the last line of the header is
  a selected `#define` with no trailing newline, the inserted `#endif` is
  joined onto that line in the written file (pre_extra_script.py:46,50).
  The list model keeps them as separate elements and does not capture this.
- **Regex metacharacters.** The name is assumed to contain no regular
  expression metacharacters, so the pattern matches it literally as a
  prefix.
