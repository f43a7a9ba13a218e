# TikTokAudit in Dafny

A model of the core of TikTokAudit. TikTokAudit is a Selenium bot that scrolls through
TikTok, records one `VideoInfo` per new video to a CSV file, and analyses the collected
feeds with a few diversity metrics. The model covers three files:

- `TikTokBot/bot.py`:
  - the `VideoInfo` record: `valid`, `num_str_to_int` and `to_csv`, with the CSV row
    read back;
  - the decisions the `Bot` takes from what the page shows: `get_video_id`,
    `close_cookie_banner`, `like_video`, `follow_video`, `check_run_paused` and
    `next_video`;
  - the `Bot` state: output path, data directory, credentials and output file, with
    `__init__`, the setters, `write_vidinfo`, and the `_browse` collection loop over
    the shared `run_ids` set.
- `TikTokBot/preprocessing.py`: `tags_str_to_list`, including the two lazy
  `re.findall` patterns; `remove_emojis`; `common_filter_rules`, via an automaton for
  its regular expression; and `prep_vidinfo`, which deduplicates keeping the first row
  and then parses the tags column in place.
- `TikTokBot/metrics.py`: `jaccard_index`, `feature_diversity` and `topic_presence`.

Files:

- `wrappers.dfy` holds `Option`, `Result`, the Python exceptions the code can raise, and
  `Distinct` (no repeated element).
- `text.dfy` holds the string built-ins the code relies on: `split`/`join`, ASCII
  `lower`, `in`, `list.index`, `int()`, `float()` and `str()`.
- `video_record.dfy`: `VideoInfo`, `repr` and the CSV format.
- `decisions.dfy`: the page decisions.
- `browse.dfy`: the `Bot` class and the `_browse` run.
- `preprocessing.dfy` and `metrics.dfy`: the analysis side.

Where the browser would answer, the model takes the answer as a parameter:

- the current URL;
- the button captions and the icon colour;
- the session flag string on each poll;
- the URL at each id read and the outcome of each attempt to reach the next video;
- the record collected on each turn of the run.

The code is followed wherever the design description of the bot disagrees with it:

- `VideoInfo.valid` checks only that `duration` is a float, not that it is positive
  (`ValidIgnoresDurationValue`).
- `num_str_to_int("10.5K")` is 10500, as the method's own comment says, and not 11
  (`NumStrToIntDocExample`).
- No persona relevance scoring exists in the code. `puppets.py` has no scoring logic,
  so there is nothing of it to model.

## Model

| member | source | states |
|---|---|---|
| VideoRecord.Valid | TikTokBot/bot.py:23-28 | the definition of valid(): an id, a str creator and desc, a list of tags and a float duration; its properties are the three Valid lemmas below |
| VideoRecord.ValidIgnoresLateFields | TikTokBot/bot.py:13-28 | likes, comments and sound, which the constructor sets to None, never decide validity |
| VideoRecord.ValidIgnoresDurationValue | TikTokBot/bot.py:23-28 | any float duration is as valid as any other (no positivity check) |
| VideoRecord.ValidNeedsFloatDuration | TikTokBot/bot.py:23-28 | an int or None duration makes the record invalid |
| VideoRecord.RoundHalfEven | TikTokBot/bot.py:51 | Python's round(): the result is within 1/2 of x and even on a tie |
| VideoRecord.RoundHalfEvenOfInteger | TikTokBot/bot.py:51 | rounding an integer gives it back |
| VideoRecord.NumStrToInt | TikTokBot/bot.py:40-54 | a non-string comes back unchanged; a string gives an int or an error; "" is an IndexError |
| VideoRecord.NumStrToIntOfFullNumber | TikTokBot/bot.py:52-54 | str(i) converts back to i |
| VideoRecord.NumStrToIntOfSuffixed | TikTokBot/bot.py:47-51 | a whole number followed by K, M or B is multiplied by 1000, 10^6 or 10^9 exactly |
| VideoRecord.NumStrToIntOfDecimal | TikTokBot/bot.py:47-51 | a mantissa with a fractional part, followed by K, M or B, is its exact decimal value times 1000, 10^6 or 10^9, rounded half to even |
| VideoRecord.NumStrToIntOfMantissa | TikTokBot/bot.py:47-51 | text ending in K, M or B whose rest float() reads is that value times the multiplier, rounded |
| VideoRecord.NumStrToIntDocExample | TikTokBot/bot.py:40-51 | "10.5K" is 10500 |
| VideoRecord.NumStrToIntShortExamples | TikTokBot/bot.py:40-54 | "2M" is 2000000 and "150" is 150 |
| VideoRecord.NumStrToIntMalformedExamples | TikTokBot/bot.py:47-54 | a bare "K" and a lower-case "1.2k" raise ValueError |
| VideoRecord.ReprBodyOfPlain | TikTokBot/bot.py:37 | repr() copies plain text between the quotes unchanged |
| VideoRecord.ReprStrOfPlain | TikTokBot/bot.py:37 | repr() of plain text is the text in single quotes |
| VideoRecord.ToCsv | TikTokBot/bot.py:30-38 | to_csv fails exactly when likes or comments fail to convert, with that error; the columns string is always the fixed header |
| VideoRecord.InitialHeader | TikTokBot/bot.py:71-73 | the constructor's dummy VideoInfo(0, "", "", [], 1) converts, giving the header |
| VideoRecord.ScanCopies | TikTokBot/bot.py:35-37 | a CSV reader copies text with no quote (and, outside quotes, no comma) into the current field |
| VideoRecord.ScanCell | TikTokBot/bot.py:35-37 | a readable cell, bare or in double quotes, is read back as its text |
| VideoRecord.ScanComma | TikTokBot/bot.py:35-37 | outside quotes a comma ends the current field and starts the next |
| VideoRecord.CsvFieldsOfLine | TikTokBot/bot.py:35-37 | a line of readable cells reads back as one field per cell |
| VideoRecord.CsvFieldsOfJoin | TikTokBot/bot.py:35 | comma-joined text without commas or quotes reads back as its pieces |
| VideoRecord.HeaderFields | TikTokBot/bot.py:35 | the header reads back as the eight column names |
| VideoRecord.HeaderIsJoin | TikTokBot/bot.py:35 | the header line is the column names joined by commas |
| VideoRecord.ColumnsUnquoted | TikTokBot/bot.py:35 | no column name holds a comma or a double quote |
| VideoRecord.TextsOfRow | TikTokBot/bot.py:36-37 | the texts of an eight-cell row are its cells' texts in order |
| VideoRecord.RowCellsReadBack | TikTokBot/bot.py:36-37 | a row built from CSV-safe values reads back as the eight value texts |
| VideoRecord.RowReadsBack | TikTokBot/bot.py:30-38 | a row written by to_csv reads back as one field per header column, each the text written for that column |
| Text.NatToStringValue | TikTokBot/bot.py:54 | the digits str() writes read back as the number, and only 0 starts with '0' |
| Text.ParseIntOfDigits | TikTokBot/bot.py:54 | int() reads a digit run, with or without a leading minus, as its value |
| Text.ParseIntOfIntToString | TikTokBot/bot.py:54 | int(str(i)) == i |
| Text.ParseDecimalOfNatToString | TikTokBot/bot.py:51 | float(str(n)) == n |
| Text.ParseDecimalOfPoint | TikTokBot/bot.py:51 | float() of digits, a point and more digits is whole + frac / 10^(digits of frac) |
| Text.Lower | TikTokBot/preprocessing.py:26 | lower() keeps the length and lowers each ASCII letter |
| Text.ContainsIffOccurs | TikTokBot/bot.py:245 | `sub in s` holds exactly when sub occurs at some position |
| Text.Split | TikTokBot/bot.py:152-154 | split() gives at least one piece, no piece holds the separator, and the first piece is a prefix |
| Text.JoinSplit | TikTokBot/bot.py:152 | joining the split pieces gives the text back |
| Text.SplitWithoutSeparator | TikTokBot/bot.py:154 | text without the separator splits into itself |
| Text.SplitAtSeparator | TikTokBot/bot.py:152 | text before the first separator is the first piece |
| Text.SplitJoin | TikTokBot/bot.py:423 | splitting joined separator-free pieces gives them back |
| Text.IndexOf | TikTokBot/bot.py:153 | list.index: ValueError (None) exactly when absent, else the first position holding x |
| Decisions.GetVideoId | TikTokBot/bot.py:147-154 | ValueError exactly when no segment is "video"; IndexError exactly when "video" is the last segment; the id holds no '/' or '?' |
| Decisions.GetVideoIdOfUrl | TikTokBot/bot.py:147-154 | the id that follows the first "video" segment is returned, with its query string cut off |
| Decisions.UrlSegments | TikTokBot/bot.py:152 | the URL's segments are the ones it was joined from |
| Decisions.IndexOfFirst | TikTokBot/bot.py:153 | the first "video" segment is the one found |
| Decisions.IdOfSegment | TikTokBot/bot.py:154 | cutting at the first '?' removes the query string |
| Decisions.GetVideoIdExample | TikTokBot/bot.py:151-154 | the URL of the method's comment gives 7068338808634215686 |
| Decisions.AcceptIndex | TikTokBot/bot.py:245 | the accept position is 0 exactly when the first caption, lower-cased, holds "accept", else 1 |
| Decisions.CookieButtonIndex | TikTokBot/bot.py:245-249 | the definition of the clicked position: the accept position when accepting, the other of the first two otherwise; CookieChoicesDistinct and CloseCookieBanner state its properties |
| Decisions.CookieChoicesDistinct | TikTokBot/bot.py:245-249 | accepting and rejecting click two different buttons among the first two |
| Decisions.CloseCookieBanner | TikTokBot/bot.py:234-249 | nothing is clicked when no banner appears or it has no buttons; a clicked index is in range; with two or more buttons the chosen one is clicked; with one button it is clicked exactly when the choice matches whether it says accept, and otherwise the missing second button is an IndexError |
| Decisions.CookieBannerFollowsLabels | TikTokBot/bot.py:245-249 | with one "accept" button among the first two, the clicked one is it when accepting and the other when rejecting |
| Decisions.CookieBannerSingleButton | TikTokBot/bot.py:244-249 | on one button not labelled accept, accepting is an IndexError and rejecting clicks it |
| Decisions.CookieBannerSingleAcceptButton | TikTokBot/bot.py:244-249 | on one button labelled accept, accepting clicks it and rejecting is an IndexError |
| Decisions.FirstDigitIndex | TikTokBot/bot.py:552 | the position of the first digit, None exactly when there is none |
| Decisions.DigitPrefix | TikTokBot/bot.py:552 | the longest prefix made of digits |
| Decisions.LeadingNumber | TikTokBot/bot.py:552-554 | re.findall(r'\d+') has a first element exactly when some digit occurs |
| Decisions.LeadingNumberOf | TikTokBot/bot.py:552-554 | the first number read is the first digit run, wherever it stands |
| Decisions.FirstDigitAt | TikTokBot/bot.py:552 | after a digit-free prefix, the first digit is at the prefix's end |
| Decisions.LeadingNumberAt | TikTokBot/bot.py:552-554 | the number is read from the first digit on |
| Decisions.DigitPrefixOf | TikTokBot/bot.py:552 | a digit run followed by a non-digit is read whole |
| Decisions.LikeVideo | TikTokBot/bot.py:518-557 | nothing is clicked when the like button is missing; a TypeError exactly when the icon has no fill attribute |
| Decisions.LikeVideoReachesWanted | TikTokBot/bot.py:546-557 | with a fill attribute there is no error, and after the (possible) click the like state is the one asked for |
| Decisions.LikeVideoIdempotent | TikTokBot/bot.py:556-557 | asking for the state the icon already shows clicks nothing |
| Decisions.LikedFromFill | TikTokBot/bot.py:546-555 | the definition of the liked-state read off the heart's fill; the LikedFromFill lemmas below state its cases |
| Decisions.LikedFromFillKeywords | TikTokBot/bot.py:546-549 | "none" reads as liked; "#fff", "#161823" and "currentColor" as not liked |
| Decisions.LikedFromFillNumber | TikTokBot/bot.py:546-554 | a colour other than the keyword fills is liked exactly when its first digit run is at least 100 |
| Decisions.LikedFromFillRgbRed | TikTokBot/bot.py:550-554 | TikTok's red in rgb() reads as liked |
| Decisions.LikedFromFillRgbGrey | TikTokBot/bot.py:550-554 | TikTok's dark grey in rgba() reads as not liked |
| Decisions.LikedFromFillHex | TikTokBot/bot.py:550-554 | a hex colour is read by its first digit run, so #fe2c55 reads as not liked; "red" as not liked |
| Decisions.FollowVideo | TikTokBot/bot.py:559-575 | a timeout exactly when both button lookups fail; otherwise a click exactly when the wanted state differs from the found button's caption |
| Decisions.FollowVideoReachesWanted | TikTokBot/bot.py:565-575 | whichever button was found, there is no error and after the (possible) click the follow state is the one asked for |
| Decisions.FlagsSayPaused | TikTokBot/bot.py:420-423 | the definition of the paused test on the flag string; FlagsSayPausedOfJoin states what it means for a joined flag list |
| Decisions.FlagsSayPausedOfJoin | TikTokBot/bot.py:420-423 | a comma-joined flag list says paused exactly when "paused" is one of its flags |
| Decisions.LeadingPaused | TikTokBot/bot.py:418-429 | the number of leading flag reads that say paused |
| Decisions.CheckRunPaused | TikTokBot/bot.py:412-433 | the loop polls until a read is missing or lacks "paused"; it announces the pause exactly when the first read said paused |
| Decisions.NextVideo | TikTokBot/bot.py:365-400 | get_video_id raising at entry raises out of the method; otherwise the answer is the outcome of its turns as NextVideoOutcome defines it, where get_video_id raising at a loop test raises out too |
| Decisions.NextVideoFrom | TikTokBot/bot.py:372-400 | the loop, from the id read at entry, answers as NextVideoOutcome says |
| Decisions.NextVideoOutcome | TikTokBot/bot.py:368-398 | the definition of next_video's result from the polls; NextVideoFrom is proved equal to it and the NextVideo lemmas state its properties |
| Decisions.NextVideoOutcomeAt | TikTokBot/bot.py:372-398 | one turn: a raising id read leaves, a new id answers True, three counted failures or another exception answer False, else the loop goes on |
| Decisions.CountedFailuresAppend | TikTokBot/bot.py:389-396 | only missing buttons and timeouts add to timeout_count |
| Decisions.NextVideoTrueMeansMoved | TikTokBot/bot.py:372-400 | True only after an id other than the starting one was read |
| Decisions.NextVideoRaisesOnlyFromId | TikTokBot/bot.py:371-373 | an exception leaves next_video only from get_video_id at a loop test, every earlier test having read the starting id |
| Decisions.GaveUpShift | TikTokBot/bot.py:372-398 | giving up at a turn after the first is giving up one turn later from the start |
| Decisions.NextVideoFalseMeansGaveUp | TikTokBot/bot.py:372-398 | False only while the id never changed, after three counted failures or an unexpected exception |
| Decisions.NextVideoGivesUpAfterThree | TikTokBot/bot.py:373-375 | three counted failures make the next unchanged turn answer False |
| Decisions.NotInteractableNotCounted | TikTokBot/bot.py:392-393 | a non-interactable retry changes nothing but the turn |
| Browsing.IdSet.constructor | TikTokBot/bot.py:467 | a new set holds the given ids |
| Browsing.IdSet.Add | TikTokBot/bot.py:498 | set.add adds the id and nothing else |
| Browsing.WrittenFile | TikTokBot/bot.py:402-410 | mode "w" empties the file and writes the header; mode "a" keeps it; the row follows; a failing to_csv writes nothing more |
| Browsing.RowsTextAppend | TikTokBot/bot.py:410 | one more row is one more line |
| Browsing.Ids | TikTokBot/bot.py:492-498 | the ids of the accepted records, in order |
| Browsing.AcceptConsistent | TikTokBot/bot.py:495-499 | accepting a record with a new id keeps the run consistent; its to_csv row is written, or it is the one record without a row when to_csv fails |
| Browsing.AcceptFresh | TikTokBot/bot.py:492-498 | accepting a record whose id is not in run_ids keeps the accepted ids distinct, outside the skip set, and equal to run_ids less the skip set |
| Browsing.AcceptedRows | TikTokBot/bot.py:496-499 | the new record's to_csv row follows the rows of the earlier records, or it has none when to_csv fails |
| Browsing.AcceptedDistinct | TikTokBot/bot.py:492-498 | a record whose id is not in run_ids keeps the accepted ids distinct |
| Browsing.AcceptedIdSet | TikTokBot/bot.py:498 | the set of accepted ids grows by exactly the new id |
| Browsing.Turn | TikTokBot/bot.py:469-513 | the definition of one loop turn of _browse; TurnConsistent, TurnCount and the turn lemmas below state its properties |
| Browsing.MoveOn | TikTokBot/bot.py:509-513 | the loop goes on exactly when next_video answers True; False ends the run; an exception from next_video leaves _browse, keeping the turn's state |
| Browsing.TurnConsistent | TikTokBot/bot.py:469-513 | one turn keeps the run consistent; only a failed write leaves a record without its row |
| Browsing.TurnCount | TikTokBot/bot.py:492-497 | one turn counts at most one record |
| Browsing.RunFeed | TikTokBot/bot.py:469-514 | the definition of the loop of _browse while i < n; RunFeedConsistent, RunFeedCount and RunFromScratch state its properties, and Bot.Collect is proved equal to it |
| Browsing.RunFeedConsistent | TikTokBot/bot.py:469-514 | the loop keeps the run consistent, the rows being the accepted records' to_csv rows, one each, except the record whose failed write broke the loop |
| Browsing.RunFeedCount | TikTokBot/bot.py:469-514 | i never decreases, never passes n, and is n when the loop finishes |
| Browsing.RunFromScratch | TikTokBot/bot.py:467-514 | the rows written are the to_csv rows of the new valid records, in order, once each; i is the number of rows, plus one when a failed write broke the loop; i never passes n and is n when the loop finishes; no id is written twice; no skipped id is written; run_ids is the skip set plus the accepted ids |
| Browsing.InvalidRecordIgnored | TikTokBot/bot.py:484-489 | an invalid record is ignored and the turn is taken again, without next_video |
| Browsing.SeenRecordSkipped | TikTokBot/bot.py:492-494 | a record whose id was seen is not counted, and the run moves on |
| Browsing.NextVideoRaisedEscapes | TikTokBot/bot.py:490-510 | an exception from next_video ends the run with that turn's state, whatever follows |
| Browsing.NewRecordTaken | TikTokBot/bot.py:495-501 | a new valid record is counted, its id added and its row written |
| Browsing.RunFeedAt | TikTokBot/bot.py:469-514 | the run from the k-th cycle takes that cycle's turn first |
| Browsing.TurnOfNewRecord | TikTokBot/bot.py:495-513 | a new record: a failing to_csv breaks the loop; otherwise it is counted with its row and the turn ends as next_video's answer says |
| Browsing.StopFiles | TikTokBot/bot.py:402-410 | a run that did not fail to write leaves the header line and its rows |
| Browsing.WriteKeepsFile | TikTokBot/bot.py:499 | writing the i-th record (header iff i == 1) keeps the file equal to the header line and the rows so far |
| Browsing.FirstWrite | TikTokBot/bot.py:405-410 | the first write leaves the header line and one row |
| Browsing.LaterWrite | TikTokBot/bot.py:405-410 | a later write appends one row |
| Browsing.Bot.constructor | TikTokBot/bot.py:63-73 | the output path is remembered and the file holds the header line only |
| Browsing.Bot.SetOutputFile | TikTokBot/bot.py:76-80 | only the output path changes |
| Browsing.Bot.SetDataDir | TikTokBot/bot.py:82-86 | only the data directory changes |
| Browsing.Bot.SetCredentials | TikTokBot/bot.py:88-92 | only the credentials change |
| Browsing.Bot.WriteVidInfo | TikTokBot/bot.py:402-410 | only the output file changes, to what write_vidinfo writes; it fails exactly when to_csv does |
| Browsing.Bot.WriteCsv | TikTokBot/bot.py:406-410 | mode "w" (with header) empties the file, mode "a" keeps it; then the header line (with header) and the row are appended, unless to_csv failed |
| Browsing.Bot.Browse | TikTokBot/bot.py:435-516 | a banner error or a missing first post ends the run with nothing written and to_skip left alone; otherwise the outcome, the count, run_ids and the file follow the loop; a non-empty to_skip is the set updated, an empty one is left alone |
| Browsing.Bot.WriteRow | TikTokBot/bot.py:496-499 | after writing the i-th record the file is the header and the rows, or the failure leaves what was written |
| Browsing.Bot.TakeTurn | TikTokBot/bot.py:470-514 | one turn changes run_ids, the counter and the file as Turn says, and stops exactly when Turn stops |
| Browsing.Bot.Collect | TikTokBot/bot.py:467-514 | the loop's outcome, count, run_ids and file are those of RunFeed |
| Preprocessing.LazyEnd | TikTokBot/preprocessing.py:26-27 | the lazy group ends at the first closer after at least one character, and never crosses a newline |
| Preprocessing.FindAll | TikTokBot/preprocessing.py:26-27 | every group re.findall returns is non-empty and holds no newline |
| Preprocessing.FindAllSkip | TikTokBot/preprocessing.py:26-27 | text without the opener has no match |
| Preprocessing.LazyEndOf | TikTokBot/preprocessing.py:26-27 | the group stops at the first closer |
| Preprocessing.FindAllMatch | TikTokBot/preprocessing.py:26-27 | an opener, a closer-free group and a closer give that group, then the matches of the rest |
| Preprocessing.HashtagsOf | TikTokBot/preprocessing.py:26 | one hashtag per group |
| Preprocessing.MentionsOf | TikTokBot/preprocessing.py:27 | one mention per group |
| Preprocessing.TagsStrToList | TikTokBot/preprocessing.py:20-28 | "[]" gives no tags; otherwise one tag per hashtag match plus one per mention match |
| Preprocessing.MentionGroups | TikTokBot/preprocessing.py:27 | every group the mention pattern captures from a tag list's str() is non-empty, so dropping its last character is defined |
| Preprocessing.CollectedIsPlain | TikTokBot/preprocessing.py:26-27 | a collected tag is plain text for repr() |
| Preprocessing.ReprItemsFirst | TikTokBot/preprocessing.py:26-27 | the str() of a list starts with its first item |
| Preprocessing.ReprItemsUnfold | TikTokBot/preprocessing.py:26-27 | the str() of a list is its first item, a separator and the rest |
| Preprocessing.HashItem | TikTokBot/preprocessing.py:26 | the hashtag pattern matches a hashtag item up to its closing quote |
| Preprocessing.MentionItem | TikTokBot/preprocessing.py:27 | the mention pattern matches a mention item up to the following ',' or ']' |
| Preprocessing.HashScanTail | TikTokBot/preprocessing.py:26 | the hashtag scan finds nothing in a separator or the closing bracket |
| Preprocessing.HashScanStep | TikTokBot/preprocessing.py:26 | the hashtag scan yields the first item's name, if it is a hashtag, then the rest's |
| Preprocessing.HashScan | TikTokBot/preprocessing.py:26 | the hashtag groups of a list's str() are its hashtags, in order |
| Preprocessing.MentionScanTail | TikTokBot/preprocessing.py:27 | the mention scan finds nothing in a separator or the closing bracket |
| Preprocessing.MentionScanStep | TikTokBot/preprocessing.py:27 | the mention scan yields the first item's group, if it is a mention, then the rest's |
| Preprocessing.MentionScan | TikTokBot/preprocessing.py:27 | the mention groups of a list's str() are its mentions plus the closing quote |
| Preprocessing.MentionsOfGroupsStep | TikTokBot/preprocessing.py:27 | the first item's captured group, last character dropped, is the mention itself |
| Preprocessing.MentionsOfGroups | TikTokBot/preprocessing.py:27 | dropping the last character of each group gives back the mentions |
| Preprocessing.ReprListShape | TikTokBot/preprocessing.py:24 | the str() of a list is "[" + items + "]" |
| Preprocessing.HashListScan | TikTokBot/preprocessing.py:26 | the hashtag groups of a list's str() are its hashtag names |
| Preprocessing.MentionListScan | TikTokBot/preprocessing.py:27 | the mention groups of a list's str() |
| Preprocessing.TagsStrToListOfRepr | TikTokBot/preprocessing.py:20-28 | parsing the str() of a collected tag list gives its hashtags lower-cased, then its mentions, each in order |
| Preprocessing.EmojiClass | TikTokBot/preprocessing.py:37-56 | the listed ranges amount to U+200D, U+231A, U+23CF, U+23E9 and everything from U+24C2 up |
| Preprocessing.RemoveEmojis | TikTokBot/preprocessing.py:32-57 | the result is never longer, holds no character of the class, and holds exactly the input's other characters |
| Preprocessing.RemoveEmojisAppend | TikTokBot/preprocessing.py:57 | the removal works character by character across a concatenation |
| Preprocessing.RemoveEmojisKeepsPlain | TikTokBot/preprocessing.py:57 | text without emoji is unchanged |
| Preprocessing.RemoveEmojisIdempotent | TikTokBot/preprocessing.py:57 | removing twice is removing once |
| Preprocessing.RemoveEmojisExample | TikTokBot/preprocessing.py:37-57 | a thumbs-up and a CJK ideograph are both removed |
| Preprocessing.InFHasFy | TikTokBot/preprocessing.py:64 | the automaton accepts from inside an f-run only after "fy" |
| Preprocessing.FypWordHasFy | TikTokBot/preprocessing.py:64 | every word of (f+y+p*)+ holds "fy" |
| Preprocessing.OccursInSlice | TikTokBot/preprocessing.py:68 | an occurrence in a stretch is an occurrence in the text |
| Preprocessing.PatternFoundIff | TikTokBot/preprocessing.py:64-68 | the pattern matches somewhere exactly when the text holds "fy", "fory" or vira+l |
| Preprocessing.CommonFilterRules | TikTokBot/preprocessing.py:59-68 | the definition of the tag filter as a search of the lower-cased tag; CommonFilterRulesIff characterises it |
| Preprocessing.CommonFilterRulesIff | TikTokBot/preprocessing.py:59-68 | a tag is dropped exactly when its lower-cased text holds "fy", "fory" or vira+l |
| Preprocessing.KeptWithoutFOrV | TikTokBot/preprocessing.py:59-68 | a tag without 'f' and 'v' is always kept |
| Preprocessing.DroppedAt | TikTokBot/preprocessing.py:59-68 | a tag is dropped as soon as one stretch of its lower-cased text is a common word |
| Preprocessing.FypTagDropped | TikTokBot/preprocessing.py:59-68 | "#FYP" is dropped as a common tag |
| Preprocessing.ForYouTagDropped | TikTokBot/preprocessing.py:59-68 | "#ForYou" is dropped as a common tag |
| Preprocessing.ViralTagDropped | TikTokBot/preprocessing.py:59-68 | "#Viraaal" is dropped as a common tag |
| Preprocessing.CatsTagKept | TikTokBot/preprocessing.py:59-68 | "#cats" is kept |
| Preprocessing.IdsCons | TikTokBot/preprocessing.py:77 | the ids of a row followed by rows |
| Preprocessing.DedupFromFacts | TikTokBot/preprocessing.py:77 | only rows of the table whose ids were not seen are kept, and every such id survives |
| Preprocessing.DedupFromUnfold | TikTokBot/preprocessing.py:77 | the first row is kept unless its id was seen, and its id is seen afterwards |
| Preprocessing.DedupKeepFirst | TikTokBot/preprocessing.py:77 | the result is no longer than the table, holds only its rows, and keeps every id |
| Preprocessing.DedupLength | TikTokBot/preprocessing.py:77 | deduplication never lengthens the table |
| Preprocessing.DedupFromDistinct | TikTokBot/preprocessing.py:77 | the kept rows have distinct ids |
| Preprocessing.DedupDistinct | TikTokBot/preprocessing.py:77 | the result has unique v_ids |
| Preprocessing.DedupFromOfDistinct | TikTokBot/preprocessing.py:77 | rows with unique new ids are all kept |
| Preprocessing.DedupOfDistinct | TikTokBot/preprocessing.py:77 | a table with unique ids is unchanged |
| Preprocessing.DedupIdempotent | TikTokBot/preprocessing.py:77 | deduplicating twice is deduplicating once |
| Preprocessing.DedupFromAppend | TikTokBot/preprocessing.py:77 | the second part of a table loses the ids the first part has |
| Preprocessing.DedupSnoc | TikTokBot/preprocessing.py:77 | an appended row is kept exactly when its id is new |
| Preprocessing.DedupIsFirstRows | TikTokBot/preprocessing.py:77 | the result is the rows that come first with their id, in table order |
| Preprocessing.ParseTagsColumn | TikTokBot/preprocessing.py:80 | the only error is TypeError, and a parsed column is as long as the table |
| Preprocessing.ParseTagsColumnFacts | TikTokBot/preprocessing.py:80 | TypeError exactly when some tags cell is not a string; otherwise each row gets its parsed tags and keeps the rest |
| Preprocessing.ApplyTagsStrToList | TikTokBot/preprocessing.py:80 | a new column holding each row's parsed tags, or TypeError exactly when some tags cell is not a string |
| Preprocessing.ParseTagsColumnOf | TikTokBot/preprocessing.py:80 | rows that each got their parsed tags are the parsed column |
| Preprocessing.PrepVidInfo | TikTokBot/preprocessing.py:72-82 | the array loops compute the deduplicated table with its tags parsed in place |
| Preprocessing.PreppedTable | TikTokBot/preprocessing.py:72-82 | success exactly when every kept tags cell is a string; the ids are unique and are the raw table's; rows differ from the kept raw rows only in tags |
| Metrics.Column | TikTokBot/metrics.py:13-14 | feed[feature] is a KeyError exactly when the column is missing, else one value per row |
| Metrics.ElementsCount | TikTokBot/metrics.py:25-29 | a sequence has at most as many distinct values as elements, exactly as many iff none repeats |
| Metrics.HashableSet | TikTokBot/metrics.py:13-14 | set() is a TypeError exactly when a value is a list, else the set of values (NaN and equal numbers of different types as under Left out) |
| Metrics.IntersectionWithinUnion | TikTokBot/metrics.py:15 | the intersection is no larger than the union, and as large exactly when the sets are equal |
| Metrics.Ratio | TikTokBot/metrics.py:15 | a smaller count over a non-zero count lies in [0, 1], and is 1 only when they are equal |
| Metrics.JaccardIndex | TikTokBot/metrics.py:8-15 | the definition of jaccard_index; JaccardBounds, JaccardZeroDivision, JaccardSymmetric and JaccardSelf state its properties |
| Metrics.JaccardOfSets | TikTokBot/metrics.py:15 | the index of two sets lies in [0, 1], and is 1 exactly when they are equal |
| Metrics.JaccardBounds | TikTokBot/metrics.py:8-15 | the index lies in [0, 1], and is 1 exactly when the two feeds' value sets are equal |
| Metrics.EmptyColumn | TikTokBot/metrics.py:15 | a column's set is empty exactly when the feed is |
| Metrics.JaccardZeroDivision | TikTokBot/metrics.py:15 | a division by zero happens exactly when both feeds have the column and no rows |
| Metrics.JaccardSymmetric | TikTokBot/metrics.py:8-15 | swapping the feeds gives the same index |
| Metrics.JaccardSelf | TikTokBot/metrics.py:8-15 | a non-empty feed compared with itself gives 1 |
| Metrics.Flatten | TikTokBot/metrics.py:28 | a TypeError exactly when some value is neither a list nor a string |
| Metrics.FeatureDiversity | TikTokBot/metrics.py:18-29 | the corrected function is the one as written, with f1 bound to the feed itself |
| Metrics.FeatureDiversityUnboundGlobal | TikTokBot/metrics.py:18-29 | imported, the function as written raises NameError on every feed; the corrected one rates a one-row feed 1 |
| Metrics.ScalarDiversity | TikTokBot/metrics.py:25 | the definition of the scalar branch of feature_diversity; ScalarDiversityBounds states its bounds |
| Metrics.ListDiversity | TikTokBot/metrics.py:28-29 | the definition of the list branch of feature_diversity; ListDiversityBounds states its bounds |
| Metrics.ScalarDiversityBounds | TikTokBot/metrics.py:25 | distinct values over rows lies in (0, 1], and is 1 exactly when no value repeats |
| Metrics.ListDiversityBounds | TikTokBot/metrics.py:28-29 | distinct items over items lies in (0, 1], and is 1 exactly when no item repeats |
| Metrics.FeatureDiversityBounds | TikTokBot/metrics.py:18-29 | the diversity lies in (0, 1], and is 1 exactly when every value (or, for lists, every item) is unique |
| Metrics.TagSet | TikTokBot/metrics.py:41 | set(post["tags"]) is a TypeError exactly when the cell is neither a list nor a string |
| Metrics.RelevantCount | TikTokBot/metrics.py:39-42 | the count never exceeds the number of posts, and is an error exactly when some cell is not iterable |
| Metrics.RelevantCountErrPrefix | TikTokBot/metrics.py:40-41 | the first failing row decides the error |
| Metrics.RelevantCountStep | TikTokBot/metrics.py:39-42 | one more row adds one to the count when its tag set is relevant, or fails with its error |
| Metrics.TopicPresenceOf | TikTokBot/metrics.py:31-43 | the definition of topic_presence as a value; TopicPresence is proved equal to it and the TopicPresence lemmas state its properties |
| Metrics.TopicPresence | TikTokBot/metrics.py:31-43 | the loop's result is the relevant count over the number of rows; an empty feed is a ZeroDivisionError |
| Metrics.TopicPresenceBounds | TikTokBot/metrics.py:43 | the presence lies in [0, 1] |
| Metrics.RelevantCountMonotone | TikTokBot/metrics.py:41 | a higher threshold never counts more posts |
| Metrics.TopicPresenceMonotone | TikTokBot/metrics.py:31-43 | a higher threshold never gives a higher presence |
| Metrics.RatioMonotone | TikTokBot/metrics.py:43 | a smaller count gives a smaller share |
| Metrics.RelevantCountAll | TikTokBot/metrics.py:41-42 | with a threshold of 0 or less every post counts |
| Metrics.TopicPresenceThresholdZero | TikTokBot/metrics.py:31-43 | with a threshold of 0 or less a non-empty feed gives 1 |
| Metrics.RelevantCountOfSameTagSets | TikTokBot/metrics.py:41 | only each post's set of tags matters to the count |
| Metrics.TagSetIgnoresRepeats | TikTokBot/metrics.py:41 | repeating a tag a post already has leaves its set unchanged |
| Metrics.TopicPresenceOfSameTagSets | TikTokBot/metrics.py:31-43 | feeds whose posts have the same tag sets get the same presence |

## Left out

- All WebDriver interaction is left out: element lookups and waits, clicks, navigation,
  CAPTCHA pauses, content warnings, modal overlays, searches, every login routine, and
  `collect_open_video_info` with the `get_video_*` readers. Whatever these report enters
  the model as a parameter.
- `unstuck_video` only scans the browser log and prints. `random_wait` and
  `emulate_keystrokes` (utils.py) only sleep and type. Sleeps and jittered waits are
  no-ops here; so is the watch time of `_browse`, which has no effect on the state.
- Logging and `print` are left out.
- `puppets.py`, `__init__.py` and `experiment.py` are not part of this model. They do
  random sampling, file reading, driver set-up and orchestration, and hold no scoring
  logic.
- The file system is a map from path to text. The per-line writes of `write_vidinfo`
  are not modelled as separate I/O events.
- `load_folder` and `load_folders` (pandas CSV loading) are not modelled. A loaded table
  enters `prep_vidinfo` and the metrics as rows or columns of values.
- Floats are not modelled as floating point:
  - decimals in `num_str_to_int` are exact rationals;
  - metric ratios are exact reals;
  - a duration is a float by type only.
- Decisions.NextVideo: the `time.sleep` calls and the repeated button lookup inside the
  loop body are not modelled. Each loop turn is one recorded attempt.
- NumStrToInt: `int()` is modelled for an optional sign and ASCII digits, and `float()`
  for an optional sign and digits with at most one point. Python also accepts
  surrounding white space, `_` between digits, non-ASCII digits and (in `float()`)
  exponents, `inf` and `nan`. So `" 150"` and `"1e3K"`, which Python converts, are
  ValueErrors here, and the OverflowError of `round()` on `"infK"` is not modelled.
- ReprBodyOfPlain: `PlainText` excludes only the quote, the backslash and the ASCII
  control characters. Python's `repr()` also escapes every other non-printable code
  point, such as U+00A0 (as `\xa0`) or the zero-width joiner U+200D (as `\u200d`).
  The read-back is claimed for such text, though Python does not copy it.
- ReprStrOfPlain: the same gap as ReprBodyOfPlain, for the quoted form.
- TagsStrToListOfRepr: the round trip rests on ReprBodyOfPlain, so it does not hold
  in Python for tags holding a non-printable non-ASCII character (U+00A0, U+200D and
  the like); `CollectedIsPlain` does not exclude them.
- Text.Lower: only ASCII letters are lowered. Python lowers every cased Unicode letter.
  The `\d` class of `like_video` is ASCII digits here; Python also accepts other
  Unicode digits.
- Browsing.Bot.Browse: an exception while opening the first post is re-raised in the
  source. The model has no exception there. The first post is either clicked or missing.
- Browsing.Bot.Collect: an exception from the browser inside the loop's `try` is one
  kind of cycle, `Raised`, which breaks the loop. An exception from `next_video`, which
  is called outside the `try`, is the outcome `Escaped`: the method returns it as a
  value where Python propagates it out of `_browse`. A feed that ends before the loop
  does gives the outcome `FeedEnded`, which only stands for "the run goes on beyond the
  inputs given".
- Preprocessing.PrepVidInfo: pandas index labels are not kept. A table is its rows in
  order.
- Metrics.HashableSet: Python's `set()` over a float column meets a new float object
  per cell, so every NaN cell is its own element; the model counts all NaN cells as
  one value. Python's `set()` also merges numbers that compare equal, such as `7` and
  `7.0`; the model keeps `Int(7)` and `Float("7.0")` apart. Metrics.JaccardIndex
  inherits both differences.
- Metrics.FeatureDiversity: `[0]` on a pandas Series is a label lookup. The model reads
  the first row, which is label 0 for a freshly loaded table. `Series.unique()` counts
  all NaN cells as one value, as the model does, but it merges `7` with `7.0`, which
  the model does not.
- Metrics.Flatten: the model iterates a str tags cell by character, as Python does.
  A NaN cell read from CSV is a non-iterable value (a TypeError).

## Findings

Metrics.FeatureDiversityUnboundGlobal exhibits the failure. Metrics.FeatureDiversityBounds
proves the intended bounds of the corrected function.

| source | as written | input that shows it | evidently intended | confidence | as-written member | corrected member |
|---|---|---|---|---|---|---|
| TikTokBot/metrics.py:23 | the list-or-scalar test reads `f1[feature][0]`, where `f1` is a global assigned only under `if __name__ == "__main__"` (lines 47-58), so any importer gets NameError | `feature_diversity(feed)` called from another module, with `feed` a one-row table whose creator column holds "alice" | test the feed's own first value, `feed[feature][0]`, which gives 1.0 for that feed | not executed | Metrics.FeatureDiversityAsWritten | Metrics.FeatureDiversity |
