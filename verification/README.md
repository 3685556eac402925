# Contact book: a verified Dafny model

This project models the core of `main.py`, a command-line contact book in
Python. The model covers:

- the `Phone` field check;
- a `Record`: a name, an ordered list of phones and an optional birthday, with
  the phone operations and the birthday countdown;
- the `AddressBook`: records keyed by lower-cased name, in insertion order,
  with upsert, lookup, deletion, paging (`iterator`) and its printable form;
- the `input_error` decorator, which turns each exception into a fixed message;
- the command handlers that act on the shared book;
- `parser`, which picks a handler from the `COMMANDS` table.

Modules, one per file:

| file | module | models |
|---|---|---|
| base.dfy | `Base` | `Option`, `Result` and the exception kinds the code raises |
| pystr.dfy | `PyStr` | the `str`/`int` built-ins the code relies on: `lower`, `capitalize`, `strip`, `split`, `join`, `startswith`, `str(int)` and `int(text)`, on ASCII |
| fields.dfy | `Fields` | the `Phone` setter's test |
| dates.dfy | `Dates` | `datetime.date`: validity, `replace(year=)`, `toordinal`, `<`, `str`, and the countdown of `days_to_birthday` |
| records.dfy | `Records` | `Record`, as a class whose `phones` and `birthday` the methods update, with the list operations as functions on `seq<Phone>` |
| books.dfy | `Books` | `AddressBook`, as a class holding `keys` (insertion order) and `data` (the dict), with the paging of `iterator` |
| handlers.dfy | `Handlers` | `input_error` and the handlers, with `customers` passed in as `book` |
| parser.dfy | `Parser` | `COMMANDS` and `parser` |

Each handler returns `Result<Reply>`. `Err(e)` is the exception the Python
raises. `Handlers.InputError` maps it to the text `input_error` returns.

The model follows the code, including these behaviours a reader may not expect:

- **Phone check.** A phone is accepted when it has 10 characters and `int()`
  reads it as a non-zero number. `int()` tolerates surrounding white space
  (space and `\t` to `\r`; unlike `strip` and `split`, not `\x1c` to `\x1f`), a
  sign and underscores between digits. So `" 123456789"`, `"+123456789"` and
  `"1_23456789"` are accepted. `"0000000000"` is rejected, because `int()`
  gives 0, which is false. `PyStr.ParseInt` models `int()` on ASCII text
  exactly. For digit-only text the rule is "ten digits, not all zero"
  (`Fields.DigitPhone`).
- **`edit_phone` errors.** When no phone matches, `edit_phone` raises
  `ValueError`, not a not-found error.
- **`iterator(0)`.** On a non-empty book, `iterator(0)` yields one empty page,
  not all the records. `islice(it, 0)` takes nothing, and then `if n:` breaks
  out of the loop.
- **`iterator` with a bad `n`.** A negative `n`, or one beyond `sys.maxsize`,
  makes `islice` raise `ValueError`.
- **29 February.** The countdown for a 29 February birthday calls
  `replace(year=)` with a common year, which raises `ValueError`. The model
  returns that error; it does not add a precondition.
- **No birthday.** `str(record)` shows a missing birthday as `None`.
- **Leading white space.** `parser` requires the line itself, lower-cased, to
  start with the keyword. A line that starts with white space therefore selects
  `unknown`, even when its first word is a keyword.

A few error paths follow the code's exception types:

- `add_record` with an empty third argument never binds `birthday`. The
  resulting `UnboundLocalError` is a `NameError`, so the user sees the
  "already in the dictionary" message.
- `add_birhday` catches everything around `strptime`, so a missing date
  argument also gives `DateError`.
- `find_phone` and `remove_phone` raise `PhoneError` for an unknown name.
- `phone` raises `KeyError` for an unknown name.

## Model

| member | source | states |
|---|---|---|
| Fields.NewPhone | main.py:32-46 | `Phone(value)`: a phone holding `value` unchanged when it has ten characters and `int()` reads it as a non-zero number, otherwise `ValueError` |
| Fields.DigitPhone | main.py:41-46 | for digit-only text, `Phone(value)` succeeds exactly when the text has ten digits and one of them is not '0'; it then stores the text unchanged, leading zeros included, and otherwise raises `ValueError` |
| Fields.AllZerosRejected | main.py:43 | `"0000000000"` is rejected with `ValueError`, because `int()` of it is 0 |
| Fields.NonNumericRejected | main.py:43-46 | text containing a character `int()` cannot read (anything but a digit, a sign, an underscore, a space or `\t`-`\r`, so `\x1c`-`\x1f` included) is rejected with `ValueError`, whatever its length |
| Fields.TenDigits | main.py:43 | ten digits, one of them not '0', pass the phone check |
| PyStr.ParseInt | main.py:43 | `int(text)` in base 10 on ASCII text: trims space and `\t`-`\r` (not `\x1c`-`\x1f`), then reads an optional sign and digits with single underscores between them; `None` where `int()` raises `ValueError` |
| PyStr.IntStripKeeps | main.py:43 | the trim `int()` applies drops only space and `\t`-`\r`: every other character of the text survives it |
| PyStr.ParseDigits | main.py:43 | `int()` of non-empty digit text is its decimal value |
| PyStr.DecimalValueZero | main.py:43 | decimal text (digits and underscores) has value 0 exactly when every character is '0' or '_' |
| PyStr.WordsStrip | main.py:376 | `s.strip().split() == s.split()` |
| PyStr.WordsRStrip | main.py:372 | `s.rstrip().split() == s.split()` |
| PyStr.WordsHead | main.py:372 | text that starts with a non-space character splits into its leading token, then the words of the rest |
| PyStr.SplitJoin | main.py:155 | splitting `'\n'.join(lines)` on line breaks gives the lines back, when no line contains one |
| Dates.Replace | main.py:88 | `replace(year=y)` succeeds exactly when that day exists in year `y`, keeps month and day, and otherwise raises `ValueError` |
| Dates.IsoFormatFields | main.py:118 | `str(date)` has ten characters, `YYYY-MM-DD`, and reads back as the same year, month and day |
| Dates.YearStep | main.py:90 | the ordinal of 1 January advances by the length of the year |
| Dates.OrdinalMonotone | main.py:89-90 | a date before another has a smaller ordinal, so date subtraction of later minus earlier is positive |
| Dates.CountdownThisYear | main.py:89-90 | this year's anniversary, when it is after today, is 1 to 365 days away |
| Dates.CountdownNextYear | main.py:91-93 | when this year's anniversary is not after today, next year's is 1 to 366 days away |
| Dates.DaysToBirthday | main.py:85-96 | the countdown from `today`: this year's anniversary minus today when it is later, otherwise next year's; the `ValueError` of `replace(year=)` when either anniversary does not exist |
| Dates.DaysToBirthdayRange | main.py:85-96 | a successful countdown is between 1 and 366 days |
| Dates.DaysToBirthdayIsNextAnniversary | main.py:86-96 | the countdown is the number of days from today to the first anniversary strictly after today |
| Dates.DaysToBirthdayOnBirthday | main.py:88-93 | on the birthday itself the countdown is a full year, 365 or 366 days, not 0 |
| Dates.DaysToBirthdayError | main.py:88-92 | the countdown fails, with `ValueError`, exactly for a 29 February birthday whose next anniversary would fall in a common year, or for an anniversary past year 9999 |
| Records.FirstMatch | main.py:99-100 | the index `edit_phone`, `find_phone` and `remove_phone` stop at is the first phone equal to the value, and `None` means no phone is equal |
| Records.FirstMatchAt | main.py:99-100 | a matching index with no earlier match is the one the loop stops at |
| Records.Edited | main.py:98-103 | the phone list after `edit_phone`: the first phone equal to the old value replaced by `Phone(new)`, or `ValueError` |
| Records.EditedSpec | main.py:98-103 | an edit succeeds exactly when a phone equals the old value and the new value is a valid phone; it then replaces only the first such phone, at its index, and keeps the length and every other phone; every failure is `ValueError` |
| Records.EditedKeepsValid | main.py:101 | an edit keeps every phone in the list valid |
| Records.EditThenFindNew | main.py:98-109 | after an edit, `find_phone(new)` returns the new phone |
| Records.EditThenFindOld | main.py:98-109 | after an edit into a different value, `find_phone(old)` returns `None` when the old value occurred once |
| Records.Found | main.py:105-109 | the answer of `find_phone`: `None` for an empty list, `ValueError` for an invalid query, otherwise the first equal phone or `None` |
| Records.FoundSpec | main.py:105-109 | `find_phone` returns the first equal phone, or `None` when there is none or the list is empty; it raises `ValueError` only for an invalid query on a non-empty list |
| Records.Removed | main.py:111-115 | the phone list after `remove_phone`: without its first phone equal to the value, `PhoneError` when none is, `ValueError` for an invalid value on a non-empty list |
| Records.RemovedSpec | main.py:111-115 | a removal succeeds exactly when the value is a valid phone held by the record; it deletes exactly the first equal phone and keeps the rest in order; `PhoneError` for no match; `ValueError` for an invalid value on a non-empty list |
| Records.RemovedAt | main.py:111-114 | removal at the first matching index drops that element only |
| Records.RemovedMissing | main.py:115 | removing a value no phone holds raises `PhoneError` |
| Records.RemovedKeepsValid | main.py:114 | a removal keeps every phone valid |
| Records.AddThenRemove | main.py:79-80 | `add_phone(p)` followed by `remove_phone(p)`, for a phone not yet held, restores the list |
| Records.JoinedPhonesLength | main.py:118 | `'; '.join` of n ten-character phones is 12n - 2 characters long |
| Records.JoinedAt | main.py:118 | in `'; '.join` of ten-character texts, text k sits at characters 12k to 12k + 10 |
| Records.JoinedPhoneAt | main.py:118 | every phone can be read back from the rendered list at its position |
| Records.Record.ToString | main.py:117-118 | `str(record)`: `Contact name: <name>, phones: <values joined by '; '>, birthday: <ISO date or None>` |
| Records.RecordOnOneLine | main.py:117-118 | `str(record)` has no line break when the name and phones have none |
| Records.Record.constructor | main.py:72-77 | a record with the name and birthday and no phones yet |
| Records.Record.New | main.py:72-77 | `Record(name, phone, birthday)` adds the phone only when it is non-empty; an invalid phone raises `ValueError` |
| Records.Record.AddPhone | main.py:79-80 | appends the phone at the end if it is valid; otherwise raises `ValueError` and changes nothing |
| Records.Record.AddBirthday | main.py:82-83 | sets or overwrites the birthday |
| Records.Record.DaysToBirthday | main.py:85-96 | `DateError` without a birthday; otherwise 1 to 366 days, or `ValueError` |
| Records.Record.EditPhone | main.py:98-103 | the loop leaves exactly the list `Edited` describes and returns the change message, or raises that error and leaves the list untouched |
| Records.Record.FindPhone | main.py:105-109 | the loop answers what `Found` describes and does not change the record |
| Records.Record.RemovePhone | main.py:111-115 | the loop leaves exactly the list `Removed` describes, or raises its error with the list untouched |
| Records.Scenario | main.py:72-103 | creating a record with a phone, adding a second phone and editing the first leaves `[edited, second]` |
| Books.ChunksFlatten | main.py:140-152 | the pages of `k` put back together are the records in insertion order |
| Books.ChunksCount | main.py:143-150 | there are ceil(len / k) pages: the fewest pages of k that hold every record |
| Books.ChunksSizes | main.py:145-146 | no page is empty, each holds at most k records, and every page but the last holds exactly k |
| Books.Pages | main.py:140-152 | `list(iterator(n))` over the records: none for an empty book, one page of all for `None`, one empty page for 0, pages of `n` for a positive `n`, `ValueError` for a negative `n` or one beyond `sys.maxsize` |
| Books.PagesFlatten | main.py:140-152 | paging never drops or repeats a record, except that `n == 0` yields one empty page |
| Books.Islice | main.py:145-146 | `islice` takes the next n records, or all that remain, from where the iterator stands |
| Books.ValuesOf | main.py:142 | `data.values()` in insertion order |
| Books.Without | main.py:136 | deleting a key leaves the other keys |
| Books.WithoutDistinct | main.py:136 | deleting a key keeps the order free of repetitions, shortens it by one exactly when the key was there, and leaves it as it was when the key was not |
| Books.WithoutOrder | main.py:136 | deleting the key at index `i` of the order cuts out exactly that occurrence; the keys before and after it keep their order |
| Books.Lines | main.py:155 | one `str(record)` per record, in order |
| Books.AddressBook.constructor | main.py:167 | an empty book |
| Books.AddressBook.Values | main.py:142 | one value per key |
| Books.AddressBook.AddRecord | main.py:123-124 | files the record under its name, replacing any record already there; a new name goes to the end of the order, a replaced one keeps its place; `find` then returns the record |
| Books.AddressBook.Find | main.py:126-132 | the record filed under the name, `None` when there is none |
| Books.AddressBook.Delete | main.py:134-138 | drops only that name and keeps the order of the rest; an absent name changes nothing; `find` then returns `None` |
| Books.AddressBook.Iterator | main.py:140-152 | the generator's pages are exactly `Pages(values, n)`: none for an empty book, one page of everything for `None`, one empty page for 0, pages of n for positive n, `ValueError` for a negative n or one beyond `sys.maxsize` |
| Books.AddressBook.ToString | main.py:154-155 | `str(book)`: `str(r)` of each record in insertion order, joined by line breaks |
| Books.BookLines | main.py:154-155 | `str(book)` split at line breaks is `str(r)` of each record, in insertion order |
| Handlers.InputError | main.py:174-190 | a handler's own reply passes through; an exception becomes its message |
| Handlers.Message | main.py:178-189 | the text `input_error` returns for each of the six exceptions |
| Handlers.MessageLength | main.py:178-189 | the length of each of the six messages |
| Handlers.MessageInjective | main.py:178-189 | no two exceptions share a message, so the message tells which one was raised |
| Handlers.Named | main.py:195-203 | `customers.get(args[0].lower())`: the record filed under the lower-cased name |
| Handlers.AddRecord | main.py:193-207 | `IndexError` with fewer than two arguments; `NameError`, with the book unchanged, for a name already present or an empty birthday argument; `ValueError` for a non-empty invalid phone; otherwise a new record under the lower-cased name, appended to the order, with the phone (if non-empty) and the parsed birthday, which `find_record` then returns |
| Handlers.ChangeRecord | main.py:210-219 | `IndexError` with fewer than three arguments; `KeyError` for an unknown name; otherwise the named record's phones change as `edit_phone` describes, its birthday is kept, and no other record changes |
| Handlers.FindRecord | main.py:222-228 | the record filed under the lower-cased name, `KeyError` when there is none |
| Handlers.DelRecord | main.py:231-238 | removes only that name, after which `find_record` raises `KeyError`; `KeyError` with the book unchanged for an unknown name |
| Handlers.AddPhone | main.py:241-250 | appends the phone to the named record, or raises `ValueError` leaving it unchanged, and keeps its birthday either way; `KeyError` for an unknown name; no other record changes |
| Handlers.FindPhone | main.py:253-262 | the named record's `find_phone` answer; `PhoneError` for an unknown name |
| Handlers.RemovePhone | main.py:265-274 | the named record's phones change as `remove_phone` describes and its birthday is kept; `PhoneError` for an unknown name; no other record changes |
| Handlers.AddBirthday | main.py:277-289 | sets the named record's birthday to the parsed date and keeps its phones; a missing or unparsable date, or an unknown name, raises `DateError` and changes nothing |
| Handlers.DaysToBirthday | main.py:292-300 | `KeyError` for an unknown name, `DateError` without a birthday, otherwise a count of 1 to 366 days in the reply |
| Handlers.PhoneOf | main.py:346-350 | `KeyError` for an unknown name; otherwise the sentence with `str(record)` |
| Parser.Keyword | main.py:353-367 | every keyword is non-empty and free of white space |
| Parser.TableComplete | main.py:353-367 | the table lists every command except `unknown`, each once |
| Parser.KeywordInjective | main.py:353-367 | no two commands share a keyword |
| Parser.Head | main.py:372-375 | the lower-cased first word, when the line starts with it |
| Parser.Matches | main.py:372-375 | `parser`'s test for a keyword: the lower-cased line starts with it and it is the lower-cased first word of the line |
| Parser.MatchesHead | main.py:375 | a keyword passes `parser`'s test exactly when it is the line's head |
| Parser.MatchedArgs | main.py:376 | for a matching keyword, the arguments are the words of the line after the first |
| Parser.Parse | main.py:370-377 | the result is the command whose keyword is the lower-cased first word of the line, with the remaining words as arguments, or `unknown` with no arguments when no keyword is; the table's order does not matter |

## Left out

- Persistence: `read_contacts_from_file`, `write_contacts_to_file` and the load of `customers` at import. These are file I/O and `pickle`. The book is created empty or passed in.
- The interactive loop `main`, the `print` inside `iterator` and the `input` pause in `show_all`. These are console I/O.
- The handlers `hello`, `help`, `end_program` and `unknown`, which return fixed text, and `show_all`. `parser` still selects them. `show_all` walks the pages of `AddressBook.Iterator` with an `input` pause per page and then returns fixed text; its bare `except` (main.py:339-340) instead returns the book itself, which `main` prints as `str(book)` (`Books.BookLines`), when the argument is missing or is not an integer, or, on a non-empty book, is negative or beyond `sys.maxsize` (on an empty book the paging loop never runs, so the fixed text is returned). Its console I/O is not modelled, so neither is its choice between these two replies.
- The dispatch `func(*data)` in `main`. Each handler is a separate member; nothing chains parsing and handling.
- The `Birthday` class. Its setter assigns to its own property and so never returns, and nothing creates one. Records hold a plain date.
- `datetime.strptime` and `datetime.today()`. The date parsed from an argument (`None` when parsing fails) and today's date are parameters.
- `str.lower`, `str.capitalize`, `str.split` and `int()` on non-ASCII text. The model treats characters outside ASCII as letters without case, and as neither white space nor digits.
- Generator laziness. `AddressBook.Iterator` returns the whole list of pages at once. When `n` is bad, the `ValueError` that Python raises at the first step is the result instead.
- The f-string that `AddressBook.find` builds and discards. It has no effect.
- Python objects returned to `print`: `find_record` and `find_phone` return a record and a phone (or `None`), modelled as `Reply` values rather than their printed form.
- Handlers.DaysToBirthday: states the day count only as lying in 1..366. The exact count is the one `Dates.DaysToBirthdayIsNextAnniversary` characterises for `Records.Record.DaysToBirthday`.
