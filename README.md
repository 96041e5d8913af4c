# Contact book: a verified Dafny model

This project models `main.py`, a small command-line contact book. The book holds records,
and each record has three validated fields:

- a `Name`, which must be a str;
- a list of `Phone`s, each a non-empty string of decimal digits;
- an optional `Birthday`, which `datetime.strptime(..., '%Y-%m-%d')` must accept and which is
  stored as `str(date)`.

The `AddressBook` is an insertion-ordered dict from name to record. It supports:

- adding a record;
- searching by name or phone;
- printing the records in pages of `N`;
- exporting to a JSON-ready mapping;
- rebuilding itself from such a mapping.

Modules, in dependency order:

- `Wrappers` (wrappers.dfy): `Option`, `Result`, and `Status` (completed, or raised with the
  ValueError text).
- `Text` (text.dfy): the ASCII string operations the program uses. These are `str.isdigit`,
  `str.title`, `str.find(...) != -1`, `", ".join`, `str.split(", ")`, the removal of `[`, `]`
  and `'`, and `"".join`.
- `Fields` (fields.dfy): the three validators as pure functions from the assigned value to the
  stored value or the error. The `%Y-%m-%d` pattern of `strptime` is spelled out, together with
  the calendar check of `datetime.date` and `str(date)`. The `Field` class is the value holder
  whose setter validates before it stores.
- `Records` (records.dfy): `RecordValue`, the pure effects of `add_phone`, `delete_phone` and
  `edit_phone` on the phone list, `__str__`, and `days_to_birthday`. The `Record` class holds
  mutable phone and birthday fields.
- `Pages` (pages.dfy): the strings the `__iter__` generator yields for a page size, and the
  pages `__next__` prints.
- `BookSpec` (book_spec.dfy): the book as a value, with the meaning of `add_record`,
  `find_record`, `prepare_to_write` and `recovery_data`.
- `Recovery` (recovery.dfy): the round trip from `prepare_to_write` back through
  `recovery_data`.
- `AddressBooks` (address_book.dfy): the `AddressBook` class. Its methods are the source's
  loops, and each is proved against the `BookSpec` and `Pages` functions.
- `Demo` (demo.dfy): the `__main__` scenario.

The proofs make two behaviours of the code as written explicit:

- A record without phones is exported with phones `['']`. Recovery then raises 'Phone must be a
  string of numbers' at that record and keeps only the earlier ones
  (`Recovery.RecoverStopsAtZeroPhones`).
- Phone lists lose their repeated values in the round trip (`Recovery.RecoverExport`). Within
  the model such repeats come only from `edit_phone` (`Records.EditPhoneMayDuplicate`). In the
  source a Phone object changed after it was added can also create one (see "Left out").

Nothing reads files, prints, or consults the clock. `recovery_data` starts from the
already-parsed mapping, given as a sequence of entries in file order.

## Model

| member | source | states |
|---|---|---|
| `Fields.ValidName` | main.py:41-43 | accepted exactly when the value is a str; the value is kept as it is; otherwise the error is "Name must be a string" |
| `Fields.ValidPhone` | main.py:60-64 | accepted exactly when the value is a non-empty str of decimal digits, and kept as it is; otherwise the error is "Phone must be a string of numbers" |
| `Fields.FirstDash` | main.py:85 | the position of the first '-' (or the length): no dash before it, and a dash at it; this is where the month directive's text ends |
| `Fields.FirstDashAt` | main.py:85 | a dash with no dash before it is the first dash |
| `Fields.ParseDate` | main.py:85 | whatever `strptime` with '%Y-%m-%d' accepts is a date `datetime.date` allows (year 1..9999, month 1..12, day within the month, leap years included) |
| `Fields.RenderDate` | main.py:85 | `str(date)` is ten characters: digits, with '-' at positions 4 and 7 |
| `Fields.ValidBirthday` | main.py:83-87 | accepted exactly when `str(value)` parses; the stored text is the canonical rendering of the parsed date; otherwise the error is 'Input date format YYYY-MM-DD' |
| `Fields.YearRoundTrip` | main.py:85 | the zero-padded rendering of a year is a four-digit %Y token that reads back as that year |
| `Fields.ParseRender` | main.py:85 | parsing the rendering of any valid date gives that date back |
| `Fields.BirthdayStoresIsoDate` | main.py:89-91 | every value stored by the Birthday setter is a ten-character rendering of a valid date |
| `Fields.IsoDateStoredUnchanged` | main.py:83-91 | a canonical date text is accepted and stored unchanged |
| `Fields.BirthdayIdempotent` | main.py:89-91 | validating a stored birthday again gives the same stored value |
| `Fields.BirthdayAccepts` | main.py:85 | any year, month and day tokens of the directives ('2000-8-9', '2000-08- 9', ...) that name a real date are accepted and stored in canonical form |
| `Fields.BirthdayRejects` | main.py:84-87 | any year, month and day tokens that name no real date (Feb 29 outside a leap year, April 31, ...) are rejected with 'Input date format YYYY-MM-DD' |
| `Fields.ParseDateShape` | main.py:85 | every text strptime accepts is a year, a month and a day token joined by dashes, and the parsed date is the one they name |
| `Fields.BirthdayShortForm` | main.py:85 | '2000-8-9' is stored as '2000-08-09' |
| `Fields.BirthdaySpacedDay` | main.py:85 | '2000-08- 9' is stored as '2000-08-09' |
| `Fields.BirthdayLeapDay` | main.py:85 | '2000-02-29' is accepted unchanged |
| `Fields.BirthdayNoLeapDay` | main.py:85-87 | '2021-02-29' is rejected |
| `Fields.BirthdayNoCenturyLeapDay` | main.py:85-87 | '1900-02-29' is rejected |
| `Fields.BirthdayNoMonth13` | main.py:85-87 | '2021-13-01' is rejected |
| `Fields.BirthdayNoApril31` | main.py:85-87 | '2021-04-31' is rejected |
| `Fields.BirthdayNoYear0` | main.py:85-87 | '0000-01-01' is rejected |
| `Fields.BirthdayLongMonth` | main.py:85-87 | '2000-001-01' is rejected |
| `Fields.BirthdayLongDay` | main.py:85-87 | '2000-01-123' is rejected (unconverted data remains) |
| `Fields.BirthdayNotADate` | main.py:84-87 | 'not-a-date' is rejected, and so is a non-str value whose `str()` is 'None' |
| `Fields.Validate` | main.py:45-91 | the validator each field class runs in its setter: `valid_name`, `valid_phone`, or `valid_birthday` with its conversion |
| `Fields.ValidateIdempotent` | main.py:41-91 | for each of the three field classes, an accepted value is accepted again unchanged |
| `Fields.Field.constructor` | main.py:12-14 | a field built from a value its validator keeps stores that value |
| `Fields.Field.New` | main.py:37-80 | `Name(x)`, `Phone(x)` and `Birthday(x)` raise exactly the validator's error when x is rejected; otherwise they produce a field holding the validated value |
| `Fields.Field.Set` | main.py:45-91 | the setter stores the validated value; on rejection it raises and keeps the old value |
| `Fields.Field.ToString` | main.py:24-25 | `str(field)` is the stored value: a digit string for a phone and, for a birthday, the ten-character rendering of a valid date |
| `Text.ToUpper` | main.py:173 | upper-casing keeps a character cased or uncased, and never yields a lower-case letter |
| `Text.ToLower` | main.py:173 | lower-casing keeps a character cased or uncased, and never yields an upper-case letter |
| `Text.TitleFrom` | main.py:173 | `str.title` from a given state: a letter after a cased character is lower-cased, any other character upper-cased |
| `Text.Title` | main.py:173 | `str.title`, starting after no cased character |
| `Text.TitleFromAt` | main.py:173 | `str.title` from any starting state lower-cases a letter after a letter and upper-cases every other character |
| `Text.TitleAt` | main.py:173 | `value.title()` keeps the length and, position by position, upper-cases the characters at the start and after an uncased character, and lower-cases the others |
| `Text.TitleLength` | main.py:173 | title-casing keeps the length |
| `Text.TitleIdempotent` | main.py:173 | title-casing a title-cased query changes nothing |
| `Text.Contains` | main.py:173 | `s.find(t) != -1`: t is a prefix of s or occurs in its tail |
| `Text.Join` | main.py:172 | `", ".join`: the pieces with ", " between consecutive ones |
| `Text.ContainsAt` | main.py:173 | `s.find(t) != -1` holds exactly when t starts at some position of s |
| `Text.Split` | main.py:153 | `split(', ')` always gives at least one piece |
| `Text.SplitWhole` | main.py:153 | a text without a comma splits into itself |
| `Text.SplitAfter` | main.py:153 | splitting "a, t", with no comma in a, gives a followed by the pieces of t |
| `Text.SplitJoin` | main.py:153 | splitting on ", " undoes `", ".join` of one or more comma-free pieces |
| `Text.Strip` | main.py:148-152 | after the replace loop no '[', ']' or quote is left |
| `Text.StripUndecorated` | main.py:148-152 | the replace loop leaves a text without those characters unchanged |
| `Text.JoinDigitsUndecorated` | main.py:231 | joined phone values contain none of the removed characters |
| `Text.Concat` | main.py:197 | the `result += str(record)` accumulation, `"".join` of the renderings |
| `Text.ConcatAppend` | main.py:197 | accumulating renderings over two runs gives their concatenation |
| `Records.WithPhone` | main.py:105-107 | add_phone: the value is appended unless a phone of equal value is already listed |
| `Records.AddPhoneEffect` | main.py:105-107 | add_phone always leaves p in the list; if p was there, nothing changes; otherwise p is appended at the end. The contents grow by p only when it was missing, no duplicate is created, and a second add of the same phone changes nothing |
| `Records.FirstIndex` | main.py:111 | the position `list.remove` takes out: the first element equal to p |
| `Records.RemoveFirst` | main.py:111 | `list.remove` of a Phone: the first element of equal value is dropped |
| `Records.RemoveFirstAbsent` | main.py:109-111 | deleting an absent phone leaves the list unchanged |
| `Records.RemoveFirstAt` | main.py:111 | `list.remove` takes out exactly the first occurrence and keeps the order of the rest |
| `Records.RemoveFirstMultiset` | main.py:111 | removal takes exactly one copy of p out of the contents |
| `Records.RemoveFirstKeepsDigits` | main.py:109-111 | the remaining phones are still digit strings |
| `Records.Edited` | main.py:113-116 | edit_phone: when the old value is listed, its first occurrence is removed and the new value appended; otherwise nothing changes |
| `Records.EditPhoneEffect` | main.py:113-116 | without the old phone the list is unchanged; with it, the first occurrence goes, the new phone ends the list, the length is kept, and the contents are the old ones minus old plus new |
| `Records.EditPhoneMayDuplicate` | main.py:113-116 | edit_phone does not check the new value, so it can create a duplicate |
| `Records.BirthdayText` | main.py:129-130 | the birthday text of a record: the stored value, or 'Not recorded' when there is none |
| `Records.Render` | main.py:128-134 | the line starts with "name: N, phones: " and the ", "-joined phones, and ends with ", birthday: B;\n", where B is the stored birthday or 'Not recorded' |
| `Records.DaysToBirthday` | main.py:118-126 | the sentinel 'Birthday info not recorded!' is returned exactly when there is no birthday |
| `Records.Record.constructor` | main.py:100-103 | the phone list holds the given phone or is empty, and the birthday is stored when given |
| `Records.Record.AddPhone` | main.py:105-107 | the phones become `WithPhone(old phones, p)`, and the record stays well formed |
| `Records.Record.DeletePhone` | main.py:109-111 | an absent value changes nothing; for a Phone whose value is listed, the first equal phone is removed; a field of another class whose value is listed passes the guard, and `list.remove` raises ValueError with the list unchanged; the birthday is unchanged |
| `Records.Record.EditPhone` | main.py:113-116 | the phones become `Edited(old phones, old, new)`, except that an old field of another class whose value is listed makes `list.remove` raise before anything is appended; the birthday is unchanged |
| `Records.Record.ToString` | main.py:128-134 | `str(record)` starts with the record's current name and ", "-joined phones and ends with its current birthday text (or 'Not recorded') and ";\n" |
| `Pages.FullPages` | main.py:194-201 | the pages completed each time the counter reaches N, each joining N consecutive renderings |
| `Pages.Rest` | main.py:194-205 | the renderings accumulated after the last completed page |
| `Pages.Yields` | main.py:190-205 | the yields of `__iter__`: none for an empty book; the full pages and then the remainder for a positive N; otherwise one string holding every rendering |
| `Pages.NonEmpty` | main.py:211-217 | the yields `__next__` prints: the non-empty ones, in order |
| `Pages.PagesSnoc` | main.py:194-201 | one more rendering joins the pending page and completes it exactly when the counter reaches N |
| `Pages.RestSuffix` | main.py:194-205 | the pending text holds fewer than N renderings: the last ones, after the full pages |
| `Pages.PagesShape` | main.py:190-205 | there are n / N full pages, and the remainder holds the last n % N renderings |
| `Pages.FullPageAt` | main.py:198-201 | full page j joins renderings j*N to j*N+N-1 |
| `Pages.PagesConcat` | main.py:194-205 | the full pages followed by the remainder give back every rendering in order |
| `Pages.YieldsShape` | main.py:190-205 | for N > 0 and n > 0 records the generator yields n / N + 1 strings: the n / N full pages, then the rest, which is '' when N divides n |
| `Pages.YieldsUncut` | main.py:190-205 | while N is None (or not positive) everything is yielded as one string |
| `Pages.YieldsConcat` | main.py:190-205 | the yields joined give every rendering in dict order |
| `Pages.FullPagesNonEmpty` | main.py:214 | no full page is empty, so none is skipped |
| `Pages.NonEmptyAppend` | main.py:211-217 | skipping empty yields works piece by piece |
| `Pages.ConcatEmpty` | main.py:214 | a page is empty exactly when all its renderings are |
| `Pages.CeilDiv` | main.py:181-220 | ceil(n / N) is n / N plus one exactly when N does not divide n |
| `Pages.ShownYields` | main.py:208-220 | __next__ drops only the last yield, and only when N divides n |
| `Pages.ShownCount` | main.py:208-220 | __next__ prints ceil(n / N) pages |
| `Pages.ShownConcat` | main.py:208-220 | together the printed pages hold every rendering in book order |
| `Pages.ShownPages` | main.py:181-220 | for a positive N, __next__ prints ceil(n / N) pages that together hold every rendering in book order |
| `Pages.ScanStep` | main.py:194-201 | one loop iteration keeps the full pages cut so far, the pending text and the counter in step with `FullPages` and `Rest` |
| `Pages.ScanDone` | main.py:202-205 | at the last record, the pending text completes the yields |
| `Pages.ScanNext` | main.py:194-205 | one whole iteration, stated on the state before and after it |
| `Pages.ShowPages` | main.py:208-220 | the loop of __next__ prints exactly the non-empty yields, in order |
| `BookSpec.Ordered` | main.py:171 | `self.data.values()` lists the record under each key, in key order |
| `BookSpec.Insert` | main.py:166-167 | `self.data[name] = record`: a new name goes to the end of the key order, an existing one keeps its place and gets the new record |
| `BookSpec.InsertEffect` | main.py:166-167 | add_record keeps the dict well formed and stores r under its name, leaving the other names alone. A new name is appended in iteration order; an existing name keeps its position and gets the new record |
| `BookSpec.InsertTwice` | main.py:166-167 | storing two records under one name keeps only the second |
| `BookSpec.IndexOf` | main.py:167 | the unique position of a key in the order |
| `BookSpec.Renders` | main.py:197 | one rendering per record, in order, none of them empty |
| `BookSpec.Matches` | main.py:173 | a record matches when its name contains the title-cased query or its ", "-joined phones contain the query |
| `BookSpec.MatchLines` | main.py:171-174 | the renderings of the matching records, in dict order |
| `BookSpec.FindSpec` | main.py:169-179 | the match list, or 'There are no matches' when it is empty |
| `BookSpec.MatchLinesAppend` | main.py:171-174 | searching a concatenation searches each part in turn, in order |
| `BookSpec.MatchLinesExact` | main.py:169-174 | every match's rendering is listed, every listed line is a match's rendering, and no more lines than records |
| `BookSpec.FindSentinel` | main.py:176-179 | the text 'There are no matches' is returned exactly when no record matches; a returned list is never empty |
| `BookSpec.Export` | main.py:222-234 | one item per record in book order: the name, the phones joined into a one-element list, and the birthday text or 'Not recorded' |
| `BookSpec.Tokens` | main.py:150-153 | the split phone text has at least one token, so `phones[0]` exists |
| `BookSpec.RecoverPhonesStep` | main.py:160-162 | at each further token, `Phone(token)` either raises, stopping the loop, or is added and the loop goes on |
| `BookSpec.RecoverPhones` | main.py:159-162 | the loop over the further tokens: each one becomes `Phone(token)`, raising on a non-digit token, and is passed to add_phone |
| `BookSpec.Built` | main.py:154-157 | the record built for an item has the item's name, the first token as its only phone, and no birthday exactly when the birthday text contains 'Not recorded'; a failure is a phone or a birthday error |
| `BookSpec.RecoverEntry` | main.py:147-162 | one item: a raise while building leaves the book unchanged; otherwise the record is added and then its further phones, a later raise leaving the partly filled record in the book |
| `BookSpec.Recover` | main.py:145-162 | the items in order, stopping at the first raise |
| `Recovery.AddAll` | main.py:159-162 | the phone list add_phone builds when given the values one after another |
| `Recovery.Dedup` | main.py:159-162 | the phones in first-occurrence order, each once |
| `Recovery.AddAllSubset` | main.py:159-162 | the add_phone loop ends with exactly the old and the new values, creates no duplicate, and simply appends new distinct values |
| `Recovery.DedupEffect` | main.py:159-162 | rebuilding a phone list by add_phone keeps each value once and changes nothing in a list without duplicates |
| `Recovery.KeepFirst` | main.py:159-162 | the reference for deduplication: ps[i] is kept exactly when it does not occur in ps[..i], in the original order |
| `Recovery.KeepFirstValues` | main.py:159-162 | dropping repeats keeps every value of the list |
| `Recovery.AddAllKeepFirst` | main.py:159-162 | continuing the add_phone fold over ps from the first occurrences of q gives the first occurrences of q + ps |
| `Recovery.DedupKeepsFirst` | main.py:159-162 | the add_phone fold keeps the first occurrence of each phone in the original order and drops the later repeats |
| `Recovery.Prefix` | main.py:147 | the book recovery has built after j items holds the first j names |
| `Recovery.TokensOfExport` | main.py:148-153 | for a record with at least one phone, the exported phone text splits back into exactly its phone list |
| `Recovery.NotContainsLonger` | main.py:154 | 'Not recorded' cannot occur in a ten-character date |
| `Recovery.RecoverPhonesDigits` | main.py:159-162 | further tokens that are all digit strings are each added without a raise |
| `Recovery.RecoverEntryExport` | main.py:147-162 | recovering the exported item of a record with a phone inserts that record with its phones deduplicated |
| `Recovery.RecoverZeroPhones` | main.py:153-155 | a record without phones is exported with the phone text ''; `Phone('')` then raises, and the book is unchanged |
| `Recovery.PrefixStep` | main.py:147-158 | each recovered item adds the next record, deduplicated, after the earlier ones |
| `Recovery.RecoverRun` | main.py:147-162 | recovering a run of exported items whose records all have phones grows the prefix book accordingly |
| `Recovery.RecoverExport` | main.py:145-162 | recovering what prepare_to_write produced into an empty book gives every record back, in order, with its phones deduplicated (first occurrences kept in order, by `DedupKeepsFirst`), provided each record has a phone |
| `Recovery.RecoverExportExact` | main.py:145-162 | when each record also has no repeated phone, the round trip gives back exactly the same book |
| `Recovery.DedupedUnchanged` | main.py:159-162 | deduplication changes nothing in a book without repeated phones |
| `Recovery.RecoverStopsAtZeroPhones` | main.py:145-162 | when record m is the first without a phone, recovery raises the phone error there and keeps the first m records |
| `AddressBooks.PageSizeFor` | main.py:182-186 | N becomes num when num is a positive int; otherwise (None, a bool, negative, other types) N becomes 1 |
| `AddressBooks.BuildRecord` | main.py:148-157 | splits the phone text and builds `Record(Name, Phone(first token)[, Birthday(text)])`, or raises exactly as `Built` says |
| `AddressBooks.AddressBook.constructor` | main.py:141-142 | a new book is empty, and N is None |
| `AddressBooks.AddressBook.AddRecord` | main.py:166-167 | the new state is `Insert(old state, record)`: keyed overwrite with the insertion order kept |
| `AddressBooks.AddressBook.FindRecord` | main.py:169-179 | the result equals `FindSpec` of the records in dict order: the matching renderings, or the sentinel text |
| `AddressBooks.AddressBook.Iter` | main.py:190-205 | the generator yields exactly `Yields(renderings, N)` |
| `AddressBooks.AddressBook.Next` | main.py:208-220 | prints exactly the non-empty yields, in order |
| `AddressBooks.AddressBook.Iterator` | main.py:181-187 | sets N as `PageSizeFor` says, then shows ceil(n / N) pages whose concatenation is every rendering in dict order |
| `AddressBooks.AddressBook.PrepareToWrite` | main.py:222-234 | the mapping is `Export` of the records in dict order |
| `AddressBooks.AddressBook.AddFurtherPhones` | main.py:159-162 | the loop's record and status are `RecoverPhones` of the further tokens; the book keeps the record, with each phone added, under its name |
| `AddressBooks.AddressBook.RecoverItem` | main.py:147-162 | one item: the new book and status are `RecoverEntry(old book, item)` |
| `AddressBooks.AddressBook.RecoveryData` | main.py:145-162 | the new book and status are `Recover(old book, mapping)`: items are applied in order, stopping at the first raise and keeping what was added |
| `Demo.DemoBill1Phones` | main.py:266-267 | rec_1's phones go from ['123456789'] to ['123456789', '1234567890'] and then to ['1234567890', '0454054'] |
| `Demo.FreshTail` | main.py:268-273 | the remaining names are still new after one record is added |
| `Demo.InsertAllFresh` | main.py:268-273 | adding records with new, distinct names appends them in order |
| `Demo.DemoBookContents` | main.py:268-273 | after the five add_record calls the book lists Bill_1 to Bill_5, in that order |
| `Demo.TitleBil` | main.py:282 | 'bil'.title() is 'Bil' |
| `Demo.MatchesBil` | main.py:282 | a name starting with 'Bil' matches the query 'bil' |
| `Demo.DemoFind` | main.py:282 | find_record('bil') returns the renderings of all five records |
| `Demo.AllMatch` | main.py:169-179 | when every record matches, the result is every rendering in order |

## Left out

- File and JSON I/O are left out: `write_contacts_to_file`, `read_contacts_from_file` and the
  `json.load` in `recovery_data`. `RecoveryData` takes the mapping as already parsed: one `Entry`
  per key, in file order, with 'phones' a list of strs and 'birthday' a str. A missing key or a
  value of another type is not modelled. A missing 'birthday' (str(None) is 'None') behaves like
  an Entry whose birthday text is 'None'.
- `print` is left out: the banner lines of `__next__`, the message of `iterator`, and the final
  loop of `recovery_data`. `Next` and `Iterator` return the page strings that would be printed,
  in order. `iterator` itself returns None.
- The generator protocol of `__iter__` and `__next__` (lazy evaluation, StopIteration) is left
  out; `Iter` returns every yielded string at once.
- `AddressBook.N` is a class attribute in the source, shared by every book. It is modelled as
  the per-book field `pageSize`.
- Only ASCII is modelled. `str.isdigit`, `\d` in `strptime`'s pattern, `str.title` (including
  letters such as 'ß' or 'ǅ') and case-insensitive matching are not modelled for other
  characters.
- `str(list)` in recovery is modelled as ", " joining the elements followed by the removal of
  '[', ']' and '\''. For elements whose repr is not the element in quotes (one holding a quote,
  a backslash, or a non-printable character such as '\n' or '\t', which repr escapes), the
  repr differs and is not modelled.
- `Records.DaysToBirthday`: the clock-based branch is left out. As written it cannot be reached:
  the stored birthday is a str, and `str.replace(year=...)` raises a TypeError before
  `date.today()` is compared. The model returns that TypeError outcome.
- The book stores record values, not references to `Record` objects. `add_record` stores a
  snapshot of the record. Later changes through another reference to a record object already in
  a book are not reflected (aliasing is not modelled). In `recovery_data`, where `add_phone`
  runs after `add_record`, the model stores the record again after each phone. `InsertTwice`
  shows that this gives what the shared object gives.
- A `Record` holds phone values (strs) rather than Phone objects. `list.remove` compares with
  `Field.__eq__`, which compares values between two Phones and returns None (false) for a field
  of another class. `DeletePhone` and `EditPhone` take the field's class into account: a Phone
  is removed by value, and a field of another class raises `list.remove`'s ValueError.
- A Phone object changed after it was added to a record (through its setter), or shared between
  records as the demo shares `phone_3` between `rec_1` and `rec_3`, is not modelled. In the
  source such a change shows in every record holding the object, and can leave a record with
  two equal phones without `edit_phone`.
- `Records.Record.EditPhone` requires the new phone to be a valid Phone, as at every call site.
  The source appends whatever object it is given.
- A record's `name` is constant in the model. The source could rebind `record.name.value` after
  `add_record`; its key would then no longer be its name, and `prepare_to_write` could merge two
  records. This is not modelled.
