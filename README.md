# spknock target store, in Dafny

spknock is a port-knocking client. It keeps a plain-text file of saved targets, one per line:

    host:number/protocol,number/protocol,...

This project models the part of spknock that reads and writes that file:

- the `Port` and `Target` records;
- `parse_target`, which turns one line into a target (or nothing) and prints diagnostics;
- `save_target`, which renders a target as one line and appends it to the file;
- `load_targets`, which parses every line that `readlines()` returns and keeps the targets.

Each of the three loops in the source is a method: `TargetStore.ParseItemList` (inside `TargetStore.ParseTargetLine`), `TargetStore.SaveTargetLine` and `TargetStore.LoadTargetLines`. Each method is proved equal to a specification function: `ParseTarget`/`ParsePorts`, `RenderTarget` and `LoadTargets`. Those functions are what the lemmas are about.

The Python built-ins the parser relies on are modelled in module `Text`:

- `"".join(s.split())` removes every ASCII whitespace character: codes 9–13, 28–31 and the space;
- `str.split(sep)` on a one-character separator;
- `int()` on an optional sign followed by ASCII digits;
- `str(n)`;
- `str.rstrip(',')`;
- `readlines()`, which cuts after each newline and keeps the newline.

Diagnostics are values, not printed text:

- `InvalidPort(token, line)` stands for the "Invalid port number" message;
- `UnparsableLine(line)` stands for the "Unable to parse line" message.

`ParseTarget` returns the target and the diagnostics in the order they are printed. The absence of a target is modelled as `None`. A `Target` object is always truthy in Python, so `if target:` in `load_targets` keeps exactly the `Some` results.

Where the intended file format and the code disagree, the model follows the code:

- **Every `:` counts.** A line splits on every colon and needs exactly two parts. So an IPv6 host such as `::1:22/tcp` is rejected as unparsable (`Scenarios.Ipv6Rejected`).
- **The host may be empty.** A line `:22/tcp` gives a target with host `""`.
- **Diagnostics quote the stripped line.** They quote the line after whitespace removal, not as it appears in the file.
- **A saved target without ports does not reload cleanly.** It is written as `host:\n`. It reads back as that target with no ports, plus one `InvalidPort("", "host:")` diagnostic, because `int('')` fails (`RenderProperties.RoundTrip`).
- **Appending after an unterminated last line merges two lines.** `save_target` opens the file in append mode. If the file's last line has no newline, the new line runs into it, and the single merged line is what `load_targets` then parses (`FileProperties.AppendToUnterminated`, `FileProperties.SaveAfterUnterminated`). Files that end with a newline, including every file `save_target` alone has written, read back their targets followed by the new one (`FileProperties.SaveThenLoadFile`).

The files are:

- `wrappers.dfy` (`Option`);
- `text.dfy`;
- `target_store.dfy` (records, specification functions, the three loops);
- `store_properties.dfy` (what the parser promises);
- `render_properties.dfy` (the saved line and the save/parse round trip);
- `load_properties.dfy` (loading over lists of lines);
- `file_properties.dfy` (the file as text, and `readlines()`);
- `scenarios.dfy` (concrete lines).

## Model

| member | source | states |
|---|---|---|
| TargetStore.ParseTarget | spknock.py:59-103 | `parse_target` as a function; the StoreProperties lemmas establish that it ignores whitespace, gives `(None, [])` exactly for blank and comment lines, gives no target exactly when the colon count is not 1, and otherwise gives the host before the colon with one port or one diagnostic per item; `TargetStore.ParseTargetLine` computes it |
| TargetStore.IsSkipped | spknock.py:68 | the skip test on the stripped line; `StoreProperties.SkippedExactly` shows it holds exactly for blank lines and lines whose first non-whitespace character is `#` |
| TargetStore.InRange | spknock.py:88 | the accepted range 0 < n < 65536; `StoreProperties.PortNumberBounds` shows an item is kept exactly when its value is in it |
| TargetStore.NumberToken | spknock.py:81-85 | `port_data[0]`; `StoreProperties.TokenAndRest` shows the item is this token followed by nothing or a `/` suffix |
| TargetStore.PortText | spknock.py:123 | one port's `number/protocol` text; `RenderProperties.PortTextShape` and `RenderProperties.PortTextParses` show it holds no `:`, `,` or whitespace and parses back to the port |
| TargetStore.PortsField | spknock.py:119-123 | the field `save_target` accumulates; `RenderProperties.PortsFieldIsJoin` shows it is the comma-join of the port texts plus one comma |
| TargetStore.RenderTarget | spknock.py:117-127 | the line `save_target` writes; `RenderProperties.RenderFormat`, `RenderProperties.RoundTrip` and `FileProperties.RenderedLineBreak` give its format, its parse and its single newline; `TargetStore.SaveTargetLine` computes it |
| TargetStore.LoadTargets | spknock.py:105-115 | `load_targets` over lines; the LoadProperties lemmas show it keeps file order, takes each line's target in place, loads a target exactly when some line parses to it and loads at most one per line; `TargetStore.LoadTargetLines` computes it |
| TargetStore.ReadLines | spknock.py:111 | `readlines()`; `FileProperties.ReadLinesShape` shows its lines concatenate to the text and are cut after each newline |
| TargetStore.PrependChar | spknock.py:111 | the step of `readlines()` for one more leading character; `FileProperties.PrependShape` shows it keeps the cut shape and puts the character in front of the text |
| TargetStore.LoadFile | spknock.py:105-115 | `load_targets` on the file's text; `FileProperties.SaveThenLoadFile` and `FileProperties.SaveAfterUnterminated` give what it loads after an append |
| TargetStore.ParsePortItem | spknock.py:81-97 | an accepted item is a valid port (0 < number < 65536, protocol "tcp" or "udp"); a rejected item is reported with its number token (the text before its first `/`) and the stripped line |
| TargetStore.ParsePorts | spknock.py:80-97 | every item of the port list yields exactly one port or one diagnostic, and every kept port is valid |
| TargetStore.ParseTargetLine | spknock.py:59-103 | the whitespace removal, skip test, colon split and item loop of `parse_target` compute exactly `ParseTarget` |
| TargetStore.ParseItemList | spknock.py:77-97 | the item loop, appending each kept port to the port list and each rejection to the diagnostics, computes exactly `ParsePorts` |
| TargetStore.SaveTargetLine | spknock.py:117-127 | the accumulating loop plus `rstrip(',')` and the newline produce exactly `RenderTarget` |
| TargetStore.LoadTargetLines | spknock.py:105-115 | the loop over the lines, keeping every result that is a target, computes exactly `LoadTargets` |
| Text.RemoveWhitespace | spknock.py:65 | the result holds no whitespace and is no longer than the input |
| Text.Split | spknock.py:72 | `str.split(sep)`: one more part than separators, no part holds the separator, the first part is the text up to the first separator |
| Text.ParseInt | spknock.py:85 | `int()` succeeds exactly on an optional sign followed by digits, with the sign deciding the sign of the value; its value is pinned by `Text.ParseIntLiteral` and `Text.LiteralForm` |
| Text.ParseIntLiteral | spknock.py:85 | `int()` of an optional `+` or `-`, any number of zeros and the decimal text of m is m, negated under `-` |
| Text.LiteralForm | spknock.py:85 | every literal `int()` accepts is an optional sign, some zeros and the decimal text of a natural number, so `ParseIntLiteral` covers them all |
| Text.IntToString | spknock.py:123 | the decimal text of an integer is non-empty and made of digits after an optional leading `-` |
| Text.RStrip | spknock.py:127 | `rstrip(',')` returns a prefix that does not end in a comma, having dropped only commas |
| Text.ParseIntToString | spknock.py:85 | `int(str(n)) == n` for every integer n |
| Text.JoinSplit | spknock.py:72 | joining the parts of a split with the separator gives back the text |
| Text.SplitJoin | spknock.py:72 | splitting a join of separator-free parts gives back the parts |
| Text.RemoveWhitespaceAppend | spknock.py:65 | whitespace removal distributes over concatenation |
| Text.RemoveWhitespaceIdempotent | spknock.py:65 | removing whitespace twice is removing it once |
| Text.RemoveWhitespaceEmpty | spknock.py:65-68 | the stripped line is empty exactly when the line is all whitespace |
| Text.RemoveWhitespaceHead | spknock.py:65-68 | the stripped line starts with a non-whitespace `c` exactly when `c` is the first non-whitespace character of the line |
| Text.CountRemoveWhitespace | spknock.py:65-73 | whitespace removal keeps the number of each non-whitespace character, so the colon count is that of the raw line |
| StoreProperties.ParseIgnoresWhitespace | spknock.py:65 | parsing a line and parsing it without its whitespace agree, diagnostics included |
| StoreProperties.ParseIgnoresInsertedWhitespace | spknock.py:65 | inserting a whitespace character anywhere in a line changes neither target nor diagnostics |
| StoreProperties.SkippedExactly | spknock.py:67-69 | the skip test holds exactly for blank lines and lines whose first non-whitespace character is `#` |
| StoreProperties.BlankAndCommentLines | spknock.py:67-69 | a line gives no target and no diagnostic exactly when it is blank or a comment |
| StoreProperties.ColonRule | spknock.py:72-75 | any other line gives no target exactly when it does not hold exactly one `:`, and then exactly one `UnparsableLine` diagnostic quoting the stripped line |
| StoreProperties.HostAndPortItems | spknock.py:72-100 | with exactly one `:` the line gives a target whose host is the text before the colon; ports plus diagnostics number the comma-separated items; every port is valid |
| StoreProperties.WellFormedLine | spknock.py:72-100 | a clean `host:ports` line parses to that host and whatever its port list yields |
| StoreProperties.ParsePortsAppend | spknock.py:80-97 | parsing a port list is parsing its two halves in turn, ports and diagnostics concatenated |
| StoreProperties.ItemsIndependent | spknock.py:80-97 | an item contributes its port at its own place, or only its diagnostic; a rejected item leaves the other ports as if it were absent |
| StoreProperties.PortNumberBounds | spknock.py:84-89 | an item whose number token is any integer literal (optional sign, leading zeros, digits) of value n, followed by nothing or a `/` suffix, is kept exactly when 0 < n < 65536, with number n; otherwise it is reported with that token |
| StoreProperties.TokenAndRest | spknock.py:81-97 | every item is its number token followed by nothing or by text starting with `/`; an item whose token is no integer literal is reported with that token |
| StoreProperties.PaddedNumber | spknock.py:84-95 | `+0080` is kept as port 80: a sign and leading zeros are accepted |
| StoreProperties.ZeroPadded | spknock.py:84-89 | `0000` is reported: zero is out of range however it is spelt |
| StoreProperties.ProtocolRule | spknock.py:92 | the protocol is "udp" exactly when the item holds exactly one `/` and ends in `/udp`, and "tcp" otherwise |
| StoreProperties.ItemWithProtocol | spknock.py:81-97 | `n/word` is kept as port n when in range, with "udp" exactly when word is "udp", else reported with the number's text |
| StoreProperties.ItemWithoutProtocol | spknock.py:81-97 | a bare in-range number is kept as a tcp port, any other is reported |
| StoreProperties.EightyKept | spknock.py:84-95 | an item whose number token is "80" is kept as port 80, whatever follows the `/` |
| StoreProperties.ProtocolMissing | spknock.py:92 | `80` gives tcp |
| StoreProperties.ProtocolUdp | spknock.py:92 | `80/udp` gives udp |
| StoreProperties.ProtocolUpperCase | spknock.py:92 | `80/UDP` gives tcp: the comparison is case-sensitive |
| StoreProperties.ProtocolMisspelt | spknock.py:92 | `80/ucp` gives tcp |
| StoreProperties.ProtocolExtraSlash | spknock.py:92 | `80/udp/x` gives tcp, because the item has three parts |
| RenderProperties.PortsFieldIsJoin | spknock.py:119-123 | the accumulated field is the comma-join of the port texts followed by one comma |
| RenderProperties.RenderFormat | spknock.py:122-127 | the saved line is `host:` then the comma-joined `number/protocol` texts, then a newline; with no ports it is `host:\n` |
| RenderProperties.PortTextParses | spknock.py:81-95 | the text `save_target` writes for a valid port parses back to that port |
| RenderProperties.PortTextsParse | spknock.py:80-97 | the texts of valid ports parse back to those ports in order, with no diagnostics |
| RenderProperties.PortTextShape | spknock.py:123 | a valid port's text holds no `:`, `,` or whitespace, and splits on `/` into its number's text and its protocol |
| RenderProperties.RenderedLine | spknock.py:127 | with whitespace removed, the saved line of a storable target is `host:` then the joined port texts, which hold no colon |
| RenderProperties.RoundTrip | spknock.py:59-127 | parsing the saved line of a storable target gives that target back, with no diagnostics when it has ports and exactly one `InvalidPort("", host + ":")` when it has none |
| RenderProperties.EmptyPortList | spknock.py:80-97 | an empty port field is one empty item, reported as an invalid port with an empty token |
| LoadProperties.LoadSnoc | spknock.py:110-113 | one more line adds the target it parses to, if any, at the end |
| LoadProperties.LoadAppend | spknock.py:110-113 | loading two runs of lines is loading each and concatenating |
| LoadProperties.LoadAround | spknock.py:110-113 | a line in the middle contributes exactly its own target, if any, between those of the lines around it |
| LoadProperties.LoadDropsLine | spknock.py:112-113 | a line that gives no target can be deleted without changing what is loaded |
| LoadProperties.LoadLength | spknock.py:110-113 | no more targets are loaded than there are lines |
| LoadProperties.LoadMembership | spknock.py:110-113 | a target is loaded exactly when some line parses to it |
| LoadProperties.SaveThenLoad | spknock.py:105-127 | saving a storable target after some lines loads back their targets followed by that target |
| LoadProperties.SaveTwiceThenLoad | spknock.py:105-127 | saving two storable targets in turn loads them back in the order saved |
| FileProperties.ReadLinesShape | spknock.py:111 | the lines of `readlines()` concatenate to the text; none is empty, each holds a newline only at its end, all but the last end with one |
| FileProperties.ReadLinesAppend | spknock.py:111 | a text that ends with a newline is read as its own lines followed by those of what comes after |
| FileProperties.ReadLinesOne | spknock.py:111 | a line whose only newline is its last character is read as that single line |
| FileProperties.ReadLinesPartial | spknock.py:111 | a non-empty text without a newline is read as one (unterminated) line |
| FileProperties.RenderedLineBreak | spknock.py:127 | the saved line holds exactly one newline, at its end, so it is read back as one line |
| FileProperties.SaveThenLoadFile | spknock.py:105-127 | appending a storable target's line to a file ending in a newline loads back the file's targets then that target, and leaves the file ending in a newline |
| FileProperties.AppendToUnterminated | spknock.py:126-127 | after an unterminated last line, the appended line is read merged with it into a single line |
| FileProperties.SaveAfterUnterminated | spknock.py:105-127 | after an unterminated last line, what is loaded is the file's earlier targets then whatever the merged line parses to |
| Scenarios.ScenarioA | spknock.py:59-100 | `example.com:80/tcp,7000/udp,  9999  ` gives example.com with 80/tcp, 7000/udp, 9999/tcp and no diagnostic |
| Scenarios.ScenarioB | spknock.py:72-103 | `bad-line-no-colon` gives no target and one `UnparsableLine` |
| Scenarios.ScenarioC | spknock.py:80-100 | `host:abc/tcp,22/tcp` keeps 22/tcp and reports `abc` |
| Scenarios.NoColon | spknock.py:72-103 | a clean line without any `:` gives no target and one `UnparsableLine` quoting it |
| Scenarios.Ipv6Rejected | spknock.py:72-103 | `::1:22/tcp` splits into four parts and is rejected as unparsable |
| Scenarios.CommentSkipped | spknock.py:65-69 | an indented `#` line gives no target and no diagnostic |

## Left out

- `Target.knock` (spknock.py:41-57): sockets, the passphrase prompt and SHA-256 are I/O and hashing, outside the target store.
- `input_host`, `input_port`, `input_protocol` and `input_count` (spknock.py:129-172): terminal prompts, interactive I/O.
- `main` (spknock.py:174-266): the interactive menu loop, where the targets file path is fixed with `expanduser`, `exists` and `mkdir`, the add-target dialogue, the hash display mode (spknock.py:243-252) and the handling of a selected target (spknock.py:254-266); it takes no arguments.
- Opening, reading and writing the file: `LoadFile` takes the file's text, `TargetStore.LoadTargetLines` takes the lines already read, and `save_target`'s write is modelled as appending `RenderTarget(t)` to the text.
- Universal-newline translation of `\r` and `\r\n` by text-mode `open`, and text decoding: the model reads the file as already-decoded characters cut only at `\n`.
- Python `int()` accepts surrounding whitespace, underscores between digits and non-ASCII digits; tokens never hold whitespace here, and the other two forms are not modelled. From Python 3.11 on, `int()` also rejects a literal of more than 4300 digits, leading zeros included; the model has no such limit, so a token of thousands of zeros followed by `80` is kept as port 80 here and reported by the source there.
- `str.split()` also splits on non-ASCII whitespace; only the ASCII whitespace characters are modelled.
- TargetStore.LoadTargets: keeps only the targets, and so does `TargetStore.LoadTargetLines`; the diagnostics that `load_targets` prints line by line (each line's `ParseTarget` diagnostics in turn) are not collected, though each line's are given by `ParseTarget`.
- The wording of the printed messages: diagnostics are modelled as values that hold the quoted token and line.
- RenderProperties.RenderFormat: requires that the last port's protocol does not end in a comma, since `rstrip(',')` would strip into it; all valid ports meet this.
