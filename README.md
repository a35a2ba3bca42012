# math_flash_cards: the card parser, scheduler and deck, in Dafny

This project models `card_parser.py`, the core of a LaTeX flash-card tool.
A document holds card blocks `\begin{flashcard}{id} ... \end{flashcard}`,
each with a question `\Q{...}` / `\Qblock{...}` and an answer `\A{...}` /
`\Ablock{...}`, section markers `\section{name}`, and metadata comments
`%@rep:<id>:<date>:<interval>:<ease>:<streak>` holding each card's SM-2
scheduling state. The model covers:

- `schedule.dfy`, `cards.dfy`: the `RepetitionData` class (a Dafny `class`,
  since `update` assigns its fields in place) and the pure SM-2 rules behind
  it: the success streak, the 1 / 6 / `round(interval * ease)` intervals, the
  ease step with its 1.30 floor, the next review date and the due test. The
  ease factor is held exactly, as a whole number of hundredths. "Today" is a
  parameter.
- `dates.dfy`: the `datetime.date` operations the scheduler uses. These are
  the day arithmetic, the ordering, and the ISO `YYYY-MM-DD` text form with
  its round trip.
- `codec.dfy`, `text.dfy`: `to_string` / `from_string` (named `Encode` /
  `Decode`), with Python's `str.split`, `str.strip`, `int()` and `float()`
  written out. `Decode` returns `None` wherever `from_string` raises
  `ValueError`.
- `scan.dfy`: the four regular expressions of the parser as hand-written
  scanners with `re.finditer` / `re.search` semantics (leftmost match, then
  resume at the end of the match).
- `parser.dfy`: `parse_flashcard_file` on a document's text. It has a pure
  specification (`ParseSpec`) and the imperative loops of the source proved
  against it. Cards of one id share one `RepetitionData` object, as in the
  source.
- `rewriter.dfy`: `save_repetition_data` on a document's text. It has the
  dict `rep_updates` with its insertion order, the removal `re.sub` and the
  insertion `re.sub`.
- `deck.dfy`: `FlashCardDeck` and its queries, `load_deck_from_directory`
  over a list of (path, text) pairs, and `save_deck` over a map from path to
  current text.

Some behaviours of the code that the model keeps:

- `from_string` raises `ValueError` on a malformed date, interval, ease or
  streak. `Codec.Decode` returns `None` there, and `ParseFlashcardFile` and
  `LoadDeck` then report failure (`ok` false).
- `load_deck_from_directory` does not catch that exception, so one failing
  file makes the whole load fail and no partial deck is returned.
- `save_deck` rewrites every file that has at least one card. It does not
  track which cards changed.
- The insertion at card_parser.py:243 does not end the comment's line, so
  saving twice is not idempotent (see Findings). `SaveRepetitionData` and the
  deck save compute the corrected insertion.

## Model

| member | source | states |
|---|---|---|
| Schedule.RoundHalfEven | card_parser.py:77 | Python's `round` of an exact quotient: the result is within half a unit of the quotient, and an exact tie goes to the even neighbour |
| Schedule.NextReviewDate | card_parser.py:38-43 | no date before the first review; otherwise the last review moved forward by the interval in days |
| Schedule.IsDue | card_parser.py:45-50 | a card never reviewed is due; otherwise it is due exactly when today is on or after its next review date |
| Schedule.RatingToQualityRange | flashcards.py:150-154 | the quiz's 1..5 rating maps into the SM-2 range 0..5, and it counts as a success (quality 3 or more) exactly when the rating is 3 or more |
| Schedule.UpdateBranches | card_parser.py:63-77 | an update stamps today's date; a failure (quality < 3) resets the streak to 0 and the interval to 1; a success extends the streak and sets the interval to 1 on the first success, 6 on the second, and after that to the old interval times the old ease, rounded to the nearest whole day, an exact half-day tie going to the even number of days |
| Schedule.EaseRules | card_parser.py:80 | the ease never falls below 1.30; quality 4 keeps it, quality 5 raises it by 0.10, quality 0 lowers it by 0.80 down to the floor, and any quality below 4 lowers an ease above the floor |
| Schedule.EaseMonotone | card_parser.py:80 | a better recall never yields a lower ease |
| Schedule.GrowthBound | card_parser.py:77 | with the ease at or above its floor, the rounded product never shrinks a positive interval and strictly grows any interval of 2 days or more |
| Schedule.UpdatePreservesValid | card_parser.py:52-80 | an update keeps the interval positive, the ease at or above 1.30, the streak non-negative and the last review a real day |
| Schedule.SuccessIntervalGrows | card_parser.py:70-77 | from the third success on, a success never shortens the interval, and it lengthens any interval of 2 days or more |
| Schedule.DueAfterUpdate | card_parser.py:38-80 | a card just reviewed is not due that day; it becomes due on its new next review date and stays due on every later day |
| Schedule.DueStaysDue | card_parser.py:45-50 | once due, a card stays due on every later day |
| Schedule.FirstReviewExamples | card_parser.py:30-80 | a new card rated 4 gets interval 1, ease 2.50 and streak 1, and rated 5 it gets ease 2.60; rated 4 again it gets interval 6 and streak 2, and a third time interval 15 (6 days times 2.50) and streak 3; each review stamps its own day |
| Cards.RepetitionData.constructor | card_parser.py:30-36 | the new object holds exactly the given record |
| Cards.RepetitionData.Default | card_parser.py:30-36 | `RepetitionData()` holds the defaults: never reviewed, interval 1, ease 2.50, streak 0 |
| Cards.RepetitionData.Update | card_parser.py:52-80 | `update` changes the object's fields to the updated record of its old fields (whose properties are the Schedule lemmas above), and keeps a valid record valid |
| Cards.RepetitionData.FromString | card_parser.py:87-98 | `from_string` gives a fresh object holding the decoded record, and fails exactly where decoding fails |
| Dates.AddDaysOrder | card_parser.py:43 | adding a positive number of days moves strictly later, a negative number strictly earlier, and zero days returns the same day |
| Dates.NextPrev | card_parser.py:43 | stepping one day forward and one day back, in either order, returns the same day |
| Dates.ParseIso | card_parser.py:93 | Python 3.10's `date.fromisoformat` accepts only 10-character text naming a day in years 1..9999 |
| Dates.IsoRoundTrip | card_parser.py:84-93 | parsing the ISO form of a representable date gives the date back |
| Dates.IsoCanonical | card_parser.py:84-93 | every text Python 3.10's `fromisoformat` accepts is the ISO form of the date it denotes |
| Codec.FormatInt | card_parser.py:85 | `str(n)` is non-empty, has no surrounding whitespace and no colon, so it stays one field |
| Codec.FormatHundredths | card_parser.py:85 | the ease written with two decimals has no surrounding whitespace and no colon, so it stays one field |
| Codec.ParseFormatInt | card_parser.py:85-94 | `int(str(n)) == n` for every integer, negative ones included |
| Codec.ParseFormatHundredths | card_parser.py:85-95 | the ease written with two decimals reads back as the same number of hundredths, negative values included |
| Codec.Decode | card_parser.py:87-98 | fewer than three colon-separated fields give the default record |
| Codec.DecodeEncode | card_parser.py:82-98 | `from_string(to_string(r))` gives back `r` for every record whose last review is a representable date |
| Codec.DecodeForms | card_parser.py:90-98 | fewer than three fields give the default record; a three-field record has streak 0; `none` as the date field means never reviewed, and any other accepted date field is the ISO form of the decoded day |
| Text.Split | card_parser.py:90 | `str.split` gives at least one part, and no part contains the separator |
| Text.SplitFour | card_parser.py:85-90 | four separator-free fields joined by the separator split back into exactly those four |
| Text.Strip | card_parser.py:196 | `str.strip` leaves no whitespace at either end and never lengthens the text |
| Text.StripInfix | card_parser.py:196 | the stripped text is a slice of the text with only whitespace before it and only whitespace after it: `str.strip` removes exactly the leading and trailing whitespace |
| Text.StripEmpty | card_parser.py:196-202 | the stripped text is empty exactly when the text is all whitespace, which is when a question or answer counts as missing |
| Scan.RepTokenAt | card_parser.py:166-169 | a metadata match at an offset is the literal `%@rep:`, a non-empty id without colons, a colon, and a non-empty payload that stops at the end of the line |
| Scan.RepTokenAtFinds | card_parser.py:166-169 | wherever the metadata pattern occurs, the scan at that offset finds it, with the same id and a payload that runs on to the end of the line |
| Scan.RepTokensFrom | card_parser.py:167 | `finditer` yields only real matches, in document order, and the matches do not overlap |
| Scan.RepTokensCover | card_parser.py:167 | `finditer` skips no token: an offset that no yielded match spans is not the start of a match |
| Scan.SectionAt | card_parser.py:176 | a section match is `\section{`, a non-empty name without `}`, and `}` |
| Scan.SectionAtFinds | card_parser.py:176 | wherever `\section{name}` occurs with a non-empty name without `}`, the scan at that offset returns exactly that marker |
| Scan.SectionsFrom | card_parser.py:177 | the section markers are real matches, in document order, and do not overlap |
| Scan.SectionsCover | card_parser.py:177 | no section marker is skipped: an offset that no yielded marker spans is not the start of one |
| Scan.BlockAt | card_parser.py:181-186 | a card match starts at the offset and ends within the text, and its id is non-empty and has no `}` |
| Scan.BlockAtMatches | card_parser.py:181-186 | a returned block is an occurrence of the card pattern (header, id, `}`, body, `\end{flashcard}`), and no `\end{flashcard}` starts inside its body: the non-greedy body stops at the first end marker |
| Scan.BlockAtFinds | card_parser.py:181-186 | wherever the card pattern can match at an offset with some body, the scan finds a block there with the same id, whose body is a prefix of that body |
| Scan.BlocksFrom | card_parser.py:183 | the card blocks are real matches, in document order, and do not overlap |
| Scan.BlocksCover | card_parser.py:183 | no card block is skipped: an offset that no yielded block spans is not the start of a match |
| Scan.BlocksIncreasing | card_parser.py:183-186 | the card blocks start at strictly increasing offsets |
| Scan.BraceArgIff | card_parser.py:195-199 | the argument the scanner reads is exactly a text whose brace groups nest at most one level deep and are all closed, followed by a closing `}`: the scanner accepts what the pattern describes and nothing else |
| Scan.SearchArgLeftmost | card_parser.py:195-199 | `re.search` returns the leftmost match: the argument pattern matches where the search stops and nowhere before; when the search finds nothing, the pattern matches nowhere |
| Parser.Entries | card_parser.py:167-170 | each metadata token is paired with its id and the decoding of its payload |
| Parser.RecordsOfFails | card_parser.py:167-170 | building `rep_data` fails exactly when some payload fails to decode |
| Parser.RecordsOfKeys | card_parser.py:167-170 | `rep_data` holds exactly the ids of the tokens |
| Parser.RecordsOfLastWins | card_parser.py:170 | under each id, `rep_data` holds the record of the last token with that id |
| Parser.LastSectionBefore | card_parser.py:189-192 | the reversed scan settles on the last marker strictly before the card; when none is found, every marker is at or after the card |
| Parser.NoSectionEarlier | card_parser.py:173-192 | a card with no marker before it has none before any earlier card, so carrying `current_section` over from the previous card yields `General` there |
| Parser.ParseSpecOrdered | card_parser.py:183-211 | the parsed cards come out in document order |
| Parser.ParseSpecBlock | card_parser.py:183-211 | a card block yields a card exactly when its stripped question and answer are both non-empty |
| Parser.ParseSpecFromBlock | card_parser.py:183-211 | every parsed card comes from an accepted card block |
| Parser.ParseSpecFields | card_parser.py:189-209 | each parsed card has a non-empty question and answer, the section of the last marker before its block (else `General`), and the record stored under its id, or the default record when there is none |
| Parser.ReadRepData | card_parser.py:164-170 | the token loop succeeds exactly where every payload decodes; it then maps exactly the ids of the tokens, each to a fresh object holding the last record for that id |
| Parser.FindSection | card_parser.py:188-192 | the reversed scan with `break` gives the name of the last marker before the block, and otherwise keeps the section carried from the previous card; either way that is the block's section |
| Parser.MakeCard | card_parser.py:184-211 | a block yields a card exactly when it is accepted; the card's fields are those of the block's view; a card whose id has a token shares that token's object, and any other card gets a fresh default object |
| Parser.BuildCards | card_parser.py:172-211 | the block loop yields one card per accepted block, in order, each agreeing with its view, with the object sharing of `rep_data.get(id, RepetitionData())` |
| Parser.ParseFlashcardFile | card_parser.py:152-213 | parsing succeeds exactly when the specification does; the returned cards and `rep_data` agree with it one by one; cards of an id with a token share that token's object, and every other card has a fresh default object that is none of the objects in `rep_data` |
| Rewriter.RemoveKeeps | card_parser.py:231-233 | the removal keeps a subsequence of the text: the characters at the kept offsets, in their order |
| Rewriter.KeptOrdered | card_parser.py:232-233 | the kept offsets increase, and no `%@rep:<id>:` line starts at any of them |
| Rewriter.DroppedInLine | card_parser.py:232-233 | every dropped character lies in a matched line: from `%@rep:<id>:` to the end of that line, its newline included |
| Rewriter.RemoveNoMatch | card_parser.py:232-233 | a text with no comment line for the id is left as it is |
| Rewriter.CardMatchFirst | card_parser.py:240 | the card pattern for an id matches at an offset exactly when the header is there and an end marker follows it, and then it ends at the first such marker |
| Rewriter.InsertNoBlock | card_parser.py:240-245 | an id with no block in the text gets no comment: the text is unchanged |
| Rewriter.InsertAtBlock | card_parser.py:242-245 | at a block of the id, the substitution copies the block, puts the comment after it and goes on after the block |
| Rewriter.InsertOne | card_parser.py:236-245 | in a text with one block of the id, the comment goes right after that block and everything else stays in place |
| Rewriter.Upsert | card_parser.py:228 | assigning into the dict keeps a known id in its place with the new value and appends a new id at the end; every other entry is unchanged |
| Rewriter.CollectKeys | card_parser.py:225-228 | `rep_updates` holds the ids of the entries |
| Rewriter.CollectDistinct | card_parser.py:225-228 | each id appears in `rep_updates` once |
| Rewriter.CollectOrder | card_parser.py:225-228 | the ids appear in the order of their first appearance |
| Rewriter.CollectValues | card_parser.py:225-228 | each id holds the value of the last entry with that id |
| Rewriter.FileEntriesSpec | card_parser.py:226-227 | the entries of a file are exactly those of the cards read from that file |
| Rewriter.CollectRepUpdates | card_parser.py:224-228 | the first loop builds a dict whose keys, in insertion order, with their values, are the collected entries of the file's cards |
| Rewriter.RewriteSingle | card_parser.py:230-245 | with one update, the rewrite is one removal followed by one insertion |
| Rewriter.SaveOnce | card_parser.py:230-245 | saving a record into a text with one block of the card and no comment for it puts the comment right after the block; the corrected rewrite ends the comment's line, the rewrite as written does not |
| Rewriter.SaveTwice | card_parser.py:230-245 | with the corrected insertion, saving the same record twice gives what saving it once gives; stated for one update, with id and record free of newlines, into a text with one block of the id and no comment line for it |
| Rewriter.AsWrittenSecondSaveLosesText | card_parser.py:232-243 | as written, when text follows the block on its last line, a second save deletes that text, so the second save differs from the first |
| Rewriter.RemoveOldLines | card_parser.py:230-233 | the removal loop deletes the comment lines of each id in turn |
| Rewriter.InsertNewLines | card_parser.py:235-245 | the insertion loop puts a comment after the blocks of each id in turn, with the comment's line ended: the corrected insertion, not the one of card_parser.py:243 |
| Rewriter.SaveRepetitionData | card_parser.py:216-248 | the new file text is the rewrite with the file's updates: the collected `rep_updates`, then every removal, then every corrected insertion |
| Deck.StrLessTotal | card_parser.py:124 | Python's string `<` orders any two different strings one way or the other |
| Deck.StrLessTransitive | card_parser.py:124 | Python's string `<` is transitive |
| Deck.StrLessIrreflexive | card_parser.py:124 | no string is less than itself |
| Deck.InsertSorted | card_parser.py:124 | inserting into a strictly sorted list keeps it strictly sorted, and adds just that element |
| Deck.SortedSet | card_parser.py:124 | `sorted(set(xs))` is strictly increasing and holds exactly the elements of `xs` |
| Deck.Select | card_parser.py:128-132 | a list comprehension keeps exactly the elements at the kept positions, in order |
| Deck.SelectMembers | card_parser.py:128-132 | an element is selected exactly when it sits at a kept position |
| Deck.DueSelected | card_parser.py:132 | the selection by the due flags holds every due card and only due cards |
| Deck.FlashCardDeck.constructor | card_parser.py:116-120 | a new deck has no cards and no files |
| Deck.FlashCardDeck.GetSections | card_parser.py:122-124 | every card's section appears once, and nothing else, in strictly increasing order |
| Deck.FlashCardDeck.FilterBySection | card_parser.py:126-128 | exactly the cards of the section, in deck order |
| Deck.FlashCardDeck.GetDueCards | card_parser.py:130-132 | exactly the cards due today, in deck order |
| Deck.FlashCardDeck.GetCardById | card_parser.py:134-139 | the first card with the id, or none when no card has it |
| Deck.LoadViewsFails | card_parser.py:256-259 | loading fails exactly when some file fails to parse |
| Deck.LoadViewsFrom | card_parser.py:256-259 | each loaded card was parsed from a file whose path it carries, and every card parsed from a file is loaded with that path |
| Deck.LoadStep | card_parser.py:256-259 | loading one more file appends its cards, in order, tagged with its path |
| Deck.LoadFail | card_parser.py:257 | a file that fails to parse makes the whole load fail |
| Deck.ParseCards | card_parser.py:257 | the load's parse succeeds exactly when the specification does; its cards agree with it one by one, hold fresh record objects that no earlier loaded card holds, and share them as `rep_data.get` does (cards of an id with a stored record share one object, and a card without one shares none with a card that has one); the cards loaded before still agree with their views |
| Deck.LoadDeck | card_parser.py:251-261 | the load succeeds exactly when every file parses; the deck then records every path in order and holds every parsed card in file and document order, each carrying its file's path; cards of different files never share a record object, and the cards of one file share as that file's parse does |
| Deck.OwnedByPairs | card_parser.py:256-259 | the card-by-card record the load keeps gives, for every pair of loaded cards, their file order, their paths, and the sharing rule of the load |
| Deck.OwnedAppend | card_parser.py:258-259 | appending one file's fresh cards, shared as parsed, to the loaded cards keeps that record |
| Deck.StoredIdsKeys | card_parser.py:166-170 | the ids with a stored record are exactly the keys of `rep_data` |
| Deck.GroupOfMembers | card_parser.py:267-270 | a file's group holds exactly the cards read from that file |
| Deck.GroupByFile | card_parser.py:266-270 | the grouping loop lists each non-empty source file once, in the order of its first card, and maps it to that file's cards in deck order |
| Deck.GroupedFirstBefore | card_parser.py:267-273 | in the grouping, a file listed before another has a card before every card of the other, as the insertion order of the `by_file` dict gives |
| Deck.GroupedTwoFiles | card_parser.py:267-273 | a card of `f1` followed by a card of `f2` is never grouped with `f2` listed first |
| Deck.GroupUpdates | card_parser.py:226-228 | a file's group gives `save_repetition_data` the same updates as the whole deck would, since the function keeps only the cards of that file |
| Deck.GroupEntries | card_parser.py:226-228 | a file's group and the whole deck yield the same entries for that file |
| Deck.SaveGroup | card_parser.py:274 | saving a file's group gives the file's new text as the deck save defines it, with the corrected insertion |
| Deck.SaveNext | card_parser.py:273-274 | one turn of the save loop writes the next file's new text and leaves every other file as it was |
| Deck.SavedAll | card_parser.py:273-274 | once every grouped file is written, every file has its new text, and every file with cards exists |
| Deck.SaveFiles | card_parser.py:272-274 | the save loop succeeds exactly when every file with cards exists; every file with cards is then rewritten with that file's records by the corrected rewrite, and every other file is left unchanged |
| Deck.SaveDeck | card_parser.py:264-274 | `save_deck` succeeds exactly when every file with cards exists; every file with cards then gets the corrected rewrite with its cards' records, and every other file is left unchanged |

## Left out

- File I/O: `open`, `read` and `write` are not modelled. A parse gets the
  file's text, a load gets (path, text) pairs, and a save gets and gives a
  map from path to text.
- `find_flashcard_files` (card_parser.py:142-149): the directory walk, the
  file-name pattern and the sorting are not modelled. `LoadDeck` takes the
  files in the order the walk yields them.
- The `__main__` demo (card_parser.py:277-301) and the interactive quiz of
  `flashcards.py` are not modelled, apart from the rating-to-quality mapping.
- `date.today()` is not modelled; it is the parameter `today`.
- Schedule.Updated: the ease is exact decimal hundredths, not an IEEE-754
  double. `interval * ease_factor` and the ease step are computed exactly,
  so a float product that lands just off a half-way point may round
  differently in Python. An ease with more than two decimals cannot arise
  in the model.
- Codec.Decode: `float()` is read only for an optional sign, digits, and an
  optional point with up to two digits. Exponents, `inf`/`nan`, underscores
  and longer fractions give `None`, where Python would accept some of them.
  `int()` likewise reads only ASCII digits without underscores.
- Dates.AddDays: day arithmetic is proleptic and unbounded. Python raises
  `OverflowError` past year 9999; the model does not raise. Writing a record
  requires its last review to be in years 1..9999.
- Parser.ParseFlashcardFile: it does not state that the default objects of
  different cards without a token are distinct from each other. It does
  state that each is fresh and is none of the token objects.
- Deck.LoadDeck: the cards are gathered in local sequences and stored in the
  new deck at the end, where Python extends `deck.cards` as it goes. The
  final deck is the same; on failure Python raises and no deck is returned.
  As for `ParseFlashcardFile`, the default objects of different cards without
  a stored record are not stated to be distinct.
- Scan.RepTokenAt: its contract describes a returned match only. That a
  match at the offset is returned is `Scan.RepTokenAtFinds`.
- Scan.RepTokensFrom: its contract says what it yields is real, ordered and
  non-overlapping. That no token is skipped is `Scan.RepTokensCover`.
- Scan.SectionAt: its contract describes a returned marker only. That a
  marker at the offset is returned is `Scan.SectionAtFinds`.
- Scan.SectionsFrom: that no marker is skipped is `Scan.SectionsCover`.
- Scan.BlockAt: its contract gives the offsets and the id only. The pattern
  occurrence and the stop at the first end marker are `Scan.BlockAtMatches`,
  and that a block at the offset is found is `Scan.BlockAtFinds`.
- Scan.BlocksFrom: that no block is skipped is `Scan.BlocksCover`.
- Text.Strip: its contract gives the shape of the result. That the result
  is the text with exactly its leading and trailing whitespace removed is
  `Text.StripInfix`.
- Dates.ParseIso: the model is Python 3.10's `date.fromisoformat`. From
  Python 3.11 on it also accepts the basic form `20240115` and week dates
  such as `2024-W03-1`. Those forms are not modelled, so under 3.11
  `from_string("20240115:1:2.50:0")` decodes where `Codec.Decode` gives `None`.
- Dates.IsoCanonical: holds for Python 3.10's `fromisoformat` only. The
  3.11 basic and week forms are accepted texts that are not the ISO form of
  their date.
- Rewriter.SaveTwice: idempotence of the corrected save is proved for one
  update only, with id and record free of newlines, into a text with exactly
  one block of the id and no comment line for it. A file with several cards,
  an id with two blocks, or an id with an existing comment is not covered.
- Rewriter.SaveOnce: stated for the same single-update, single-block,
  no-comment case as `Rewriter.SaveTwice`.
- Rewriter.InsertOne: stated for a text with one block of the id.
- Rewriter.InsertNewLines: it computes the corrected insertion, which ends
  each inserted comment's line. card_parser.py:243 does not end it; that
  insertion is `Rewriter.RewriteAsWritten`.
- Deck.SaveGroup: gives the corrected rewrite of the file, not what
  card_parser.py:243 writes.
- Deck.SaveFiles: writes the corrected rewrite of each file with cards.
- Deck.SaveDeck: writes the corrected rewrite of each file with cards. On
  `\begin{flashcard}{c}\Q{q}\A{a}\end{flashcard} tail` with no comment,
  `save_deck` writes `...\end{flashcard}\n%@rep:c:none:1:2.50:0 tail`, and
  the model writes `...\end{flashcard}\n%@rep:c:none:1:2.50:0\n tail`.
- Deck.SaveDeck: when `ok` is false, nothing is stated about the texts.
  Python raises at the first missing file, after writing the files before it.
- Rewriter.SaveRepetitionData: it uses the corrected insertion, which ends
  the inserted comment's line. The insertion as written is
  `Rewriter.RewriteAsWritten`; see Findings.
- Concurrency and file encodings are not modelled. Strings are sequences of
  code points.

## Findings

| source | as written | input that shows it | evidently intended | confidence | as-written member | corrected member |
|---|---|---|---|---|---|---|
| card_parser.py:243 (with the removal pattern of card_parser.py:232) | the inserted comment `\n%@rep:<id>:<record>` is not followed by a newline, so text after `\end{flashcard}` on the same line ends up on the comment's line, and the next save's removal `[^\n]*\n?` deletes it | a file `\begin{flashcard}{c}\Q{q}\A{a}\end{flashcard} tail` with no comment, saved twice with the same record: after the second save ` tail` is gone | saving the same records again leaves the text as one save does, and no document text is lost | not executed | Rewriter.AsWrittenSecondSaveLosesText | Rewriter.SaveTwice |

