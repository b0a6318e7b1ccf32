# Weekly WhatsApp ad broadcaster, modelled in Dafny

The system broadcasts one advertisement per weekday (Monday to Saturday) to
a list of WhatsApp groups. An ad is an image and a caption. The operator
edits everything on a small web page:

- which hours of the day the ad goes out;
- the captions, kept in `data.txt` one line per day;
- the images, kept under `assets/` as `diaum.jpg` … `diaseis.png`;
- the recipient groups, kept in `grupos_check.txt`.

Once an hour the server's tick (`agendarEnvios`) decides whether the current
slot is due. If it is, the tick sends the day's image with its caption to
every recipient group in turn. It appends one record per group to
`historico-envios.json`. It marks the slot as done in `envios_registrados.txt`
so that the slot is not sent twice in one day. A midnight job clears those
marks.

The project models the server's core as follows:

- The tick, its guards and its sending loop. The files are fields of a
  `Server` class, and the WhatsApp client and the clock are parameters.
- The readers and writers of each file.
- The routes that edit the files.
- The rules the page applies before it calls those routes.

Modules:

- `Wrappers`: `Option`.
- `Text`: the JavaScript string operations the code relies on (`trim`,
  `split`, `join`, `includes`).
- `Hours`: `horarios.txt`. This covers `POST /horarios`, `lerHorarios`'s
  `+3` shift and the page's `-3` shift.
- `Content`: the day names, the image look-up, `data.txt` and its three
  writers. The writers are `/salvar`, `/copiar-anuncio` and
  `/apagar-anuncio`.
- `Groups`: `grupos_check.txt`, `grupos_scan.txt` and `processarGrupo`.
- `History`: `historico-envios.json`.
- `Dispatch`: the tick's decision and the sending loop, with the client as
  an oracle.
- `Service`: the `Server` class with the ledger, the tick and the routes.
- `Uri`: `encodeURIComponent` and `decodeURIComponent` (section 19.2.6 of
  ECMA-262), which the WhatsApp link relies on.
- `Client`: the page's rules.

In these places the code behaves in ways a caller might not expect, and the model follows the code:

- A `getChatById` failure is not caught per group. It ends the whole batch,
  and the slot is not marked.
- The two-second pause follows only a delivered send.
- A missing caption throws at `texto.substring` before the completeness
  check is reached.
- A missing history file answers 404 rather than an empty list.
- A history file holding JSON that is not an array is never written again.
  Each `push` throws, the catch swallows the error, and the batch's records
  are lost.

## Model

| member | source | states |
|---|---|---|
| Dispatch.EffectiveWeekday | server.js:250-257 | the tick's weekday is the calendar weekday except at 0 and 1 o'clock, when it is the previous day with Sunday wrapping to Saturday; always in 0..6 |
| Dispatch.WeekdayName | server.js:43-50 | weekdays 1..6 name the six days in order; Sunday and anything else has no name |
| Dispatch.Decide | server.js:259-327 | the tick's guards as one decision on values; characterised by `BroadcastIff`, `NeverUnmapped`, `LedgerBlocksResend` and `NothingAfterDeleteAll` |
| Dispatch.BroadcastIff | server.js:259-327 | the tick broadcasts iff it is not Sunday, the hour is scheduled, the slot is not in the ledger, the day has a non-empty caption and an image, and there is a recipient; it then sends that caption and image to exactly the recipients |
| Dispatch.NeverUnmapped | server.js:282-288 | the `diaMap`/`imagemMap` guard can never fire past the Sunday check |
| Dispatch.LedgerBlocksResend | server.js:276-280 | a slot already in the ledger is always skipped, and an empty ledger never blocks a tick |
| Dispatch.NothingAfterDeleteAll | server.js:291-294 | after every ad has been deleted (`data.txt` emptied) no tick broadcasts |
| Dispatch.SendToGroups | server.js:361-415 | the sending loop produces exactly the events, history records and completion that `RunBatch` describes for the client's behaviour |
| Dispatch.RunBatch | server.js:361-415 | what a batch leaves behind when the client behaves as the oracle says; characterised by `SendToGroups`, `BatchRecordsShape`, `BatchEventsShape`, `CompleteBatch` and `AbortedBatch` |
| Dispatch.GroupRecordShape | server.js:375-409 | a reached group's record holds its id, its chat's name, position `(i+1)/N`, and status `erro` with the error message exactly when the send failed |
| Dispatch.BatchRecordsShape | server.js:338-357 | a batch appends one record per group reached, in recipient order |
| Dispatch.BatchEventsShape | server.js:367-391 | every reached group is sent to once in file order, delivered or not, and a pause follows each delivered send except the last group's |
| Dispatch.CompleteBatch | server.js:413-418 | when every chat is found, every group is sent to once in order and gets exactly one record, failures included, and the batch completes; with all sends delivered it pauses once between each two groups |
| Dispatch.AbortedBatch | server.js:361-421 | when the chat lookup of group k fails, groups before k are sent to and recorded, k and later groups get nothing, and the batch does not complete |
| Service.LedgerSlots | server.js:226-231 | the in-memory ledger loaded from `envios_registrados.txt` holds exactly the slots the file lists; a missing file gives none |
| Service.Server.constructor | server.js:224-231 | the server starts with the ledger set equal to the slots of its file and an empty client log |
| Service.Server.ClearLedger | server.js:234-240 | the midnight job empties the ledger and removes its file |
| Service.Server.Plan | server.js:243-317 | the guards, taken in source order over the current files, reach the decision `Decide` defines |
| Service.Server.Tick | server.js:243-422 | a skipped tick changes nothing; a broadcast does what `RunBatch` says, appends its records to the history as `AppendAll` describes, and marks the slot in the ledger and its file only when the batch completed; the ledger and its file stay in agreement |
| Service.Server.SetHours | server.js:508-521 | `POST /horarios` answers `NormaliseHours` of the body and stores the hours only when they are saved |
| Service.Server.SaveRecipients | server.js:545-550 | `POST /grupos` replaces `grupos_check.txt` with one `id \| name` line per group |
| Service.Server.ScanMessage | server.js:183-208 | `processarGrupo` rewrites `grupos_scan.txt` as `ScanResult` of the old contents |
| Service.Server.SaveCaption | server.js:480-506 | `/salvar` rewrites `data.txt` as the known days' stored values with the edited day set to its escaped message |
| Service.Server.CopyAd | server.js:624-679 | 400 iff the destinations are not an array or the origin is not a known day; 404 iff the origin has no image or no caption; otherwise each known destination gets the origin's image under its own name and the origin's extension, and its caption; any failure changes nothing |
| Service.Server.DeleteAd | server.js:682-717 | 400 iff the day is unknown; otherwise both of the day's image files are removed and `data.txt` is rewritten without that day's caption |
| Service.Server.DeleteAllAds | server.js:720-740 | every day's image files are removed and `data.txt` is emptied |
| Service.Server.DeleteHistory | server.js:1083-1093 | the history file becomes the empty array |
| Hours.JsRem | server.js:80 | JavaScript's `%`: `a` is the quotient truncated toward zero times `b` plus the remainder, which has the sign of the dividend and is smaller than the divisor in magnitude |
| Hours.SortedUnique | server.js:515-516 | the distinct values, strictly ascending, nothing added or lost |
| Hours.AscendingUnique | server.js:515-516 | two strictly ascending lists with the same members are equal, so the stored list is determined by the input's values |
| Hours.Numbers | server.js:515 | the numbers kept are exactly the elements that parsed |
| Hours.NormaliseHours | server.js:508-521 | a non-array or empty body is refused; otherwise the stored hours are strictly ascending and are exactly the values that parsed |
| Hours.NormaliseExample | server.js:515-518 | `[9, 14, 9, 3]` is stored as `[3, 9, 14]` |
| Hours.ServerHours | server.js:72-86 | a missing file gives no hours; otherwise each stored hour h becomes `(h + 3) % 24`, in order |
| Hours.ShiftsInverse | public/app.js:1096 | on 0..23 the page's `(h - 3 + 24) % 24` and the server's `(h + 3) % 24` undo each other |
| Hours.DisplayServerHours | public/app.js:1096 | the page shows exactly the hours that were stored |
| Hours.ScheduledIff | server.js:266-271 | a clock hour is scheduled iff the hour three hours earlier was stored |
| Content.ImageBase | server.js:52-59 | exactly the six known days have an image base name |
| Content.ImageBasesDistinct | server.js:52-59 | different known days have different image base names |
| Content.ImageOf | server.js:298-306 | `.jpg` is preferred over `.png`; no image only when neither file exists |
| Content.FindImage | server.js:298-306 | the extension loop finds the image `ImageOf` names, with its extension |
| Content.ImageKeysDistinct | server.js:300-301 | image files of known days are the same file only for the same day and extension |
| Content.EscapeLineBreaks | server.js:482 | no line break is left in the escaped message (its inverse is `UnescapeEscape`) |
| Content.EscapeNewlines | server.js:668 | no line break is left in the escaped caption, and only an empty caption escapes to an empty one |
| Content.EscapeUnescape | server.js:668 | on text without line breaks, unescaping and then escaping again gives it back |
| Content.EscapeAll | server.js:664-670 | every caption keeps its day, loses its line breaks, and is empty exactly when it was |
| Content.Captions | server.js:98-110 | the caption map `lerMensagensDataTxt` builds; characterised by `ReadCaptions`, `ColonsSurvive` and `ReadRender` |
| Content.Render | server.js:664-672 | the text a writer of `data.txt` produces from a map; characterised by `ReadRender`, `StoredRender` and `RewriteReadBack` |
| Content.SavedFile | server.js:480-506 | the `data.txt` that `/salvar` writes; characterised by `SavedCaptionReadBack` and `SaveKeepsOtherDays` |
| Content.Caption | server.js:291-316 | a day has a usable caption exactly when it has a non-empty value, and that value is the caption |
| Content.UnescapeEscape | server.js:98-110 | unescaping an escaped caption gives it back when it has no `\r` before a line break and no backslash before an `n` |
| Content.ReadCaptions | server.js:98-110 | the reading loop of `lerMensagensDataTxt` yields the caption map `Captions` defines |
| Content.ReadStored | server.js:489-496 | `/salvar`'s reading loop yields the stored values, none of which holds a line break |
| Content.SplitHead | server.js:104-106 | a line with a `:` is its first piece, that `:`, and the other pieces joined again with `:`, so only the first `:` separates the day |
| Content.ColonsSurvive | server.js:98-110 | a written line for a known day is read as that day with the reader's value of the whole caption, whatever `:` it holds |
| Content.ReadRender | server.js:98-110 | reading a rewritten `data.txt` finds exactly the known days that had a non-empty value, each trimmed and unescaped |
| Content.StoredRender | server.js:489-499 | `/salvar` reads back what it wrote: the known days with a non-empty value, each trimmed |
| Content.SavedCaptionReadBack | server.js:480-506 | after `/salvar` for a known day the broadcast reads back exactly the typed message, when it is trimmed, non-empty and plain |
| Content.SaveKeepsOtherDays | server.js:489-499 | `/salvar` keeps every other known day's caption |
| Content.RewriteReadBack | server.js:664-672 | rewriting `data.txt` from what the reader produced and reading it again keeps every known day's caption |
| Content.CaptionsStable | server.js:664-672 | every caption read from `data.txt` survives being escaped, written and read again |
| Content.CopyToDays | server.js:655-663 | the copy loop yields exactly `CopiedImages` and `CopiedTexts`; unknown destinations are skipped |
| Content.CopiedTexts | server.js:662-663 | the captions after the copy; characterised by `CopiedTextsSpec` |
| Content.CopiedImages | server.js:655-661 | the image files after the copy; characterised by `CopiedImagesSpec` |
| Content.CopiedTextsSpec | server.js:655-663 | every known destination gets the origin's text, and every other name keeps its own |
| Content.CopiedImagesSpec | server.js:655-661 | every known destination's file with the origin's extension is the origin's image, and every other file is unchanged |
| Content.CopyReadBack | server.js:624-679 | after a copy the broadcast reads the origin's caption for every known destination, and every other known day keeps its own |
| Content.CopiedImageSeen | server.js:298-306 | the image the broadcast then finds for a destination is the copy with a `.jpg` origin, and with a `.png` origin only when the destination had no `.jpg` |
| Content.DeleteReadBack | server.js:700-710 | after `/apagar-anuncio` the day has no caption and every other known day keeps its own |
| Content.RemoveImages | server.js:693-697 | the unlink loop removes exactly the day's `.jpg` and `.png` files |
| Content.RemoveAllImages | server.js:722-729 | the nested unlink loop removes exactly the image files of all six days |
| Content.NoImagesLeft | server.js:722-729 | once every day's image files are removed, no day has an image |
| Content.EmptyFileNoCaptions | server.js:733 | an emptied `data.txt` holds no caption |
| Groups.Recipients | server.js:88-95 | a missing file has no recipients; every recipient id is trimmed and ends in `@g.us` |
| Groups.ListGroups | server.js:554-568 | a missing file lists nothing |
| Groups.ParseEntries | server.js:560-564 | the non-empty lines, each split at `|` into a trimmed id and name; characterised by `SavedGroupsListed` |
| Groups.GroupLineSplit | server.js:547 | a saved `id \| name` line splits back into the group's id and name |
| Groups.SaveGroups | server.js:545-550 | the `grupos_check.txt` that `POST /grupos` writes; characterised by `SavedLines`, `SavedGroupsListed` and `SavedRecipients` |
| Groups.RecipientLines | server.js:88-95 | the recipients of the saved lines are the saved ids ending in `@g.us`, in order |
| Groups.EmptyLineIsNoRecipient | server.js:88-95 | an empty line yields no recipient |
| Groups.SavedLines | server.js:545-550 | the saved file splits back into one line per group |
| Groups.SavedGroupsListed | server.js:545-568 | the listing returns the saved groups, each with its name, when the fields are plain |
| Groups.SavedRecipients | server.js:545-550 | the broadcast sends to exactly the saved groups whose id ends in `@g.us`, in saved order |
| Groups.MessageGroup | server.js:186-189 | the group of a message is its sender when that is a group, otherwise its recipient when that is a group |
| Groups.ScanResult | server.js:183-208 | `grupos_scan.txt` after `processarGrupo`; characterised by `ScanAppends`, `ScanRegisters` and `ScanIdempotent` |
| Groups.ScanAppends | server.js:197-202 | the scan file only grows: the earlier contents stay as a prefix |
| Groups.ScanRegisters | server.js:190-202 | after a group's message with its chat found, the group's id is in the file |
| Groups.ScanIdempotent | server.js:199-202 | handling a message of an already registered group again changes nothing |
| History.AppendOne | server.js:343-353 | pushing one more record extends the same array |
| History.Push | server.js:343-356 | one `salvarHistorico` call; `AppendOne` shows it extends `AppendAll` by one record |
| History.AppendAll | server.js:337-357 | the file after a run of `salvarHistorico` calls; characterised by `AppendOne` and `AppendKeepsHistory` |
| History.AppendKeepsHistory | server.js:343-356 | appending keeps the file's records in order and puts the new ones after; a missing or unparseable file is replaced by the new records alone; a file holding JSON that is not an array makes `push` throw, so it is left as it was and the new records are lost |
| History.ReadHistory | server.js:1048-1080 | 404 for a missing file; 500 for one that does not parse and for `null`, whose `length` throws; any other non-array value is sent back as it is; otherwise the stored records in order |
| History.EmptiedThenAppended | server.js:1083-1093 | after the history is emptied, it lists exactly the records appended since |
| Uri.Utf8Scalar | public/app.js:936 | the UTF-8 bytes `encodeURIComponent` escapes decode back to the same character |
| Uri.Encode | public/app.js:936 | `encodeURIComponent`; characterised by `EncodeSafe`, `EncodeUnreserved` and `DecodeEncode` |
| Uri.Decode | public/app.js:936 | `decodeURIComponent` with its failure case; `DecodeEncode` shows it undoes `Encode` |
| Uri.DecodeEncode | public/app.js:936 | `decodeURIComponent(encodeURIComponent(s))` is `s` |
| Uri.EncodeSafe | public/app.js:936 | the encoding holds only unreserved characters, `%` and hexadecimal digits |
| Uri.EncodeUnreserved | public/app.js:936 | text of unreserved characters is left as it is |
| Client.Picked | public/app.js:1105-1108 | the chosen hours are exactly those of the selects set to an hour |
| Client.ConfirmHours | public/app.js:1104-1115 | no request iff no select is set; otherwise the hours are strictly ascending and are exactly the chosen ones |
| Client.ConfirmedHoursStored | public/app.js:1104-1122 | the server stores exactly the list the page confirmed |
| Client.WhatsAppLink | public/app.js:928-938 | a link is made iff the trimmed number is `55` and eleven more digits |
| Client.LinkReadsBack | public/app.js:928-938 | the link is `https://wa.me/` + the trimmed number + `?text=` + a tail that decodes to the trimmed text and holds no `&`, `#` or space |
| Client.ChangePassword | public/app.js:489-541 | refusals in source order: an empty field, different fields, under four characters, no confirmed account; otherwise the request carries the first confirmed account with the trimmed password |
| Client.CollectDestinations | public/app.js:1310-1320 | the `forEach` yields `Destinations` of the checkboxes |
| Client.Destinations | public/app.js:1310-1320 | the destination days the `forEach` collects; characterised by `CollectDestinations`, `DestinationsSpec` and `CopyRequest` |
| Client.RemoveFirst | public/app.js:1316 | `replace` with a string pattern: the first occurrence of the pattern is cut out, and text without the pattern is unchanged; `CheckboxDay` shows it turns `checkbox_<day>` into `<day>` |
| Client.DestinationsSpec | public/app.js:1313-1320 | a day is sent iff some checked box stands for it and it is not the origin |
| Client.CopyRequest | public/app.js:1313-1326 | no request iff every checked box is the origin's; a request never holds the origin |
| Client.CheckboxDay | public/app.js:1316 | the checkbox `checkbox_<day>` stands for `<day>` |
| Client.FilterByDate | public/app.js:664-667 | all records for the empty selection; otherwise every record of the selected date as many times as it occurs, and no other |
| Client.FilterIdempotent | public/app.js:664-667 | filtering again by the same date changes nothing |
| Client.InsertDate | public/app.js:648-652 | inserting a date keeps the options newest first and adds exactly that date |
| Client.DateOptions | public/app.js:648-652 | the options are newest first and are exactly the dates of the records |
| Client.OptionsDistinct | public/app.js:648 | no date is offered twice |
| Client.OptionSelects | public/app.js:648-667 | every offered date selects at least one record |
| Client.SplitLabel | public/app.js:1158-1163 | a label without `' - '` is the id with an empty name |
| Client.RegistrationSplits | public/app.js:1158-1163 | a line `processarGrupo` wrote, cut at `\|` and trimmed by `GET /grupos`, is split by the page back into the group's id and name |
| Client.InsertEmoji | public/app.js:777-782 | the text is `text[..start] + emoji + text[end..]`, and the caret sits right after the emoji |
| Client.InsertThenDelete | public/app.js:777-782 | deleting what was inserted leaves the text without the selection, or the original text for an empty selection |

## Left out

- The WhatsApp client's lifecycle (QR code, restart, logout). `getChatById` and `sendMessage` are an oracle `transport` giving, for each group in turn, the chat's name or a failure, the send's outcome, and the clock reading.
- `MessageMedia.fromFilePath` failing. Image files are a map from name to contents, so a found image can always be loaded.
- `node-cron` timing and the `setTimeout` delay. The tick is a method given the weekday and the hour. The delay is a `Pause(2000)` event in the client log.
- Concurrency. The midnight clear and an hourly batch may overlap in the server; the model runs operations one at a time.
- Real file I/O and its failures. Each file is a field holding its parsed contents: `horarios.txt` as its list of numbers, the ledger file as its list of slots, the history file as missing, unparseable, JSON that is not an array (`null` or another value), or an array. A failed write and the 500 replies it causes are not modelled.
- The text format of `horarios.txt` (`join(',')` read back with `split` and `parseInt`), and `parseInt` itself. A request's hours arrive already parsed, and a value that does not parse is `None`.
- Ledger lines other than well-formed `dia-hora` keys, which no writer of the file produces.
- The history file is rewritten after each record. The model appends the batch's records in order; the final contents are the same.
- `Date` formatting and the `-3` hour shift of `hora`, `data` and `timestamp`, and the random record `id`. A record's time and date come from the oracle's clock reading, and its date is a `Date(day, month, year)` value rather than a `dd/mm/yyyy` string.
- JavaScript `Date` normalisation of out-of-range day or month fields in the date ordering.
- `agendarEnvios` being registered again on every connection. The model has one tick.
- The preview route `GET /anuncio/:dia`, `/upload`, authentication, user files and `bcrypt` hashing.
- The WhatsApp link generator's number check is a regular expression. It is modelled as its meaning: `55` followed by eleven ASCII digits.
- Strings are sequences of Unicode scalar values rather than UTF-16 code units. The password length and the emoji caret position therefore count characters; an emoji outside the Basic Multilingual Plane counts 2 in the page but 1 here.
- Service.Server.SaveCaption: the message is always a string. Without one, `/salvar` throws at `mensagem.replace` before reading `data.txt`, answers 500 and leaves the file as it was; the page always sends the text field's value (public/app.js:865).
- Service.Server.SaveRecipients: the body is always an array of groups with string ids and names. A body that is not an array throws at `grupos.map`, answers 500 and leaves `grupos_check.txt` as it was; a group without `id` or `nome` is written with `undefined`. The page always posts an array of id and name strings read from its table (public/app.js:1213-1222).
- Client.ChangePassword: the redirect to the confirmation page after two seconds is not modelled.
- Client.RegistrationSplits: requires a non-empty, trimmed group id without spaces or `|`, and a non-empty, trimmed name without `|` that does not contain `' - '`. A name with `|` reaches the page cut at the `|`, an empty or untrimmed name loses its spaces to `trim`, and a name containing `' - '` splits differently; those cases are not stated.
- Groups.Recipients: states the shape of each id; which lines become recipients, and in what order, is stated for a saved file by Groups.SavedRecipients.
- Groups.ListGroups: states only the missing-file case; the parsing of a saved file is stated by Groups.SavedGroupsListed. The listing routes are not otherwise modelled.
- Client.SplitLabel: states only the case without a separator; with one, the cells are the first two pieces of `SplitStr`.
- Client.ConfirmHours: a select's value is modelled as already a number. `Number` of an unusual option value is not modelled.
- A JavaScript object's inherited keys (a day named `__proto__`, say) are not modelled. Caption maps hold only the keys written into them.
