# A verified model of the ledger core

This project models the core of a small plain-text double-entry ledger written in Java, and proves properties of the model in Dafny. The core has three parts:

- **The file-backed store** (`LedgerDaoImpl`), modelled as the class `LedgerStore.LedgerDao`. Its state is the text of the ledger file.
  - `GetAllTransactions` is the reading loop: it walks the file's lines once, keeping the current date, the current description, the pending postings and the transactions emitted so far. It is proved equal to the pure scan `Reader.ReadLedger`.
  - `SaveTransaction` is the writing loop: it appends a line break, the header line, and one line per posting. It is proved to append exactly `Writer.Serialize(t)`, leaving the old text as a prefix.
- **The two line patterns**, written as recognisers in `LineParser`.
  - The header pattern is `^(\d{4}-\d{2}-\d{2}) +(.*)`.
  - The posting pattern is `^\s+([\w:]+)\s*(\$?(-?[\d,]+\.\d{2}))?`.
  - Each recogniser is proved to succeed exactly when the pattern matches the whole line, and to return the groups that Java's backtracking engine returns.
- **Amounts and dates** (`Amounts`, `Dates`), shared by both sides.
  - An amount is an exact number of cents. Decoding drops `$` and `,` and reads the rest as a two-decimal number.
  - The writer prints `%.2f`.
  - A date is read the way `LocalDate.parse` reads `yyyy-MM-dd` with its default resolver.
- **The mapper** (`TransactionMapper`) converts between value records that hold accounts and transfer records that hold account names. Names are resolved through the registry, and an unknown name fails the whole conversion.
- **The registry** (`AccountRegistry`) is a read-only table from account name to account. Both are immutable datatypes, so a lookup or conversion cannot change the table.

The round-trip results are in `RoundTrip`. They hold for a *writable* transaction (`Writer.Writable`):
- its account names are made of `[\w:]` characters;
- its description has no line terminator and does not start with a space;
- every posting has an amount.

Such a transaction reads back as `RoundTrip.Normalized` of it, not as itself. The dates, descriptions, account names and amounts are the same. Each account's balance becomes its posting's amount, because the reader builds every account afresh from the line.
- Saving a writable transaction to a ledger that reads without error gives what the ledger read before, then the normalized transaction (`RoundTrip.ReadAfterSave`). A trailing transaction without postings is dropped from the old read, such as the one dated today that an empty ledger reads as. The lemma does not cover a ledger with a header whose date does not parse, since such a ledger fails to read (`Reader.ReadLedgerFails`).
- A ledger built by saving writable transactions in order, each but the last with postings, reads back as their normalized forms in that order (`RoundTrip.ReadSavedLedger`).

`LedgerExamples` restates the scenarios of the store's two tests on the model: the exact text saved for the "Gas" transaction, and the three transactions read from the sample ledger.

Behaviours of the code that are easy to misread:

- **Header separator.** In the header pattern, the `\s` sits inside a Java string literal, where it is the escape for a space. So only spaces, not tabs, separate the date from the description. A tab-separated header is a noise line.
- **Amount without a space.** The posting pattern lets the amount follow the account name with no whitespace. The greedy name then gives characters back: `"  Cash100.00"` reads as account `Cash10` with amount `0.00` (`LineParser.BacktrackingExample`).
- **Ledger without headers.** It reads as one transaction dated today. That transaction holds every posting line of the file, not necessarily none (`Reader.LedgerWithoutHeaders`).
- **Absent amount.** Saving a posting without an amount does not fail. `String.format("%.2f", null)` prints `null` cut to the precision, `nu`. The line `    <name>    $nu` is then skipped on reading (`RoundTrip.AbsentAmountLineIgnored`).

## Model

All source paths are under `core/src/main/java/com/rtpascual/ledger/core/` except the test, which is under `core/src/test/java/com/rtpascual/ledger/core/`.

| member | source | states |
|---|---|---|
| Registry.AccountRegistry.FindByName | core/src/main/java/com/rtpascual/ledger/core/store/AccountRegistry.java:28-30 | an account is found exactly when the name is a key with a non-null value, and it is then the stored account itself |
| Mapper.TransactionMapper.PostingToDTO | core/src/main/java/com/rtpascual/ledger/core/mapper/TransactionMapper.java:27-32 | the transfer posting carries the account's name and the same, possibly absent, amount |
| Mapper.TransactionMapper.PostingsToDTO | core/src/main/java/com/rtpascual/ledger/core/mapper/TransactionMapper.java:35-37 | same length, each element the converted posting at the same position |
| Mapper.TransactionMapper.TransactionToDTO | core/src/main/java/com/rtpascual/ledger/core/mapper/TransactionMapper.java:34-44 | date and description kept; same posting count; each posting's name and amount kept, in order |
| Mapper.TransactionMapper.PostingToModel | core/src/main/java/com/rtpascual/ledger/core/mapper/TransactionMapper.java:48-57 | succeeds iff the registry holds the name; the account is the registry's and the amount is copied; otherwise the error message is "Account not found in registry: " and the name |
| Mapper.TransactionMapper.PostingsToModel | core/src/main/java/com/rtpascual/ledger/core/mapper/TransactionMapper.java:60-62 | succeeds iff every name resolves, converting each element in place; otherwise fails with the message for the first unresolved name |
| Mapper.TransactionMapper.TransactionToModel | core/src/main/java/com/rtpascual/ledger/core/mapper/TransactionMapper.java:59-69 | succeeds iff every posting's name resolves, keeping date, description, posting count and order with the registry's accounts; otherwise no transaction, and the error names the first unresolved account |
| Mapper.TransactionMapper.ToDTOAfterToModel | core/src/main/java/com/rtpascual/ledger/core/mapper/TransactionMapper.java:27-69 | converting a transfer record to a value record and back gives it back, when all names resolve and every account is stored under its own name |
| Mapper.TransactionMapper.ToModelAfterToDTO | core/src/main/java/com/rtpascual/ledger/core/mapper/TransactionMapper.java:27-69 | converting a transaction to a transfer record and back gives it back, when each posting holds the registry's account for its name |
| Dates.IsDateText | core/src/main/java/com/rtpascual/ledger/core/dao/LedgerDaoImpl.java:37 | the date group `\d{4}-\d{2}-\d{2}`: ten characters, digits except for dashes at positions 4 and 7 |
| Dates.ParseDate | core/src/main/java/com/rtpascual/ledger/core/dao/LedgerDaoImpl.java:52 | fails, naming the text, exactly when the year is 0 or the month or day is out of 1..12 or 1..31; otherwise keeps year and month and moves a day past the month's end back to its last day |
| Dates.FormatDate | core/src/main/java/com/rtpascual/ledger/core/dao/LedgerDaoImpl.java:91 | writes four digits, a dash, two digits, a dash, two digits, whose year, month and day fields are the date's own |
| Dates.ParseFormatDate | core/src/main/java/com/rtpascual/ledger/core/dao/LedgerDaoImpl.java:23 | reading a written date gives the same date |
| Dates.ClampedDay | core/src/main/java/com/rtpascual/ledger/core/dao/LedgerDaoImpl.java:52 | "2023-02-30" reads as 28 February 2023 |
| Dates.ClampedLeapDay | core/src/main/java/com/rtpascual/ledger/core/dao/LedgerDaoImpl.java:52 | "2024-02-30" reads as 29 February 2024 |
| Dates.MonthOutOfRange | core/src/main/java/com/rtpascual/ledger/core/dao/LedgerDaoImpl.java:52 | "2024-13-01" is refused |
| Dates.YearZero | core/src/main/java/com/rtpascual/ledger/core/dao/LedgerDaoImpl.java:52 | "0000-07-29" is refused |
| Amounts.IsAmountToken | core/src/main/java/com/rtpascual/ledger/core/dao/LedgerDaoImpl.java:38 | group 2 of the posting pattern, `\$?-?[\d,]+\.\d{2}`: an optional `$`, an optional `-`, digits and commas, a point and two digits, as the whole text |
| Amounts.StripCurrency | core/src/main/java/com/rtpascual/ledger/core/dao/LedgerDaoImpl.java:60 | the result holds no `$` or `,` and is no longer than the input |
| Amounts.StripCurrencyCounts | core/src/main/java/com/rtpascual/ledger/core/dao/LedgerDaoImpl.java:60 | every character other than `$` and `,` is kept as often as it occurs in the input |
| Amounts.StripCurrencyAppend | core/src/main/java/com/rtpascual/ledger/core/dao/LedgerDaoImpl.java:60 | removing `$` and `,` from two joined texts is removing them from each, so the kept characters stay in order |
| Amounts.ScaledDecimalParts | core/src/main/java/com/rtpascual/ledger/core/dao/LedgerDaoImpl.java:60 | the value `new BigDecimal` gives a text `-?\d*\.\d{2}`, in cents: negative only with a leading `-`, its whole units the digits before the point and its cents the two after |
| Amounts.AmountTokenDecodes | core/src/main/java/com/rtpascual/ledger/core/dao/LedgerDaoImpl.java:60 | every accepted token, with `$` and `,` removed, is the sign, the integer digits, a point and two digits: a decimal `BigDecimal` accepts |
| Amounts.DecodeAmount | core/src/main/java/com/rtpascual/ledger/core/dao/LedgerDaoImpl.java:58-60 | the value in cents is the sign applied to 100 times the integer digits without commas plus the two fractional digits |
| Amounts.FormatCents | core/src/main/java/com/rtpascual/ledger/core/dao/LedgerDaoImpl.java:94 | the formatted amount holds only digits, `-` and `.`, never `$` or `,` |
| Amounts.FormatCentsCanonical | core/src/main/java/com/rtpascual/ledger/core/dao/LedgerDaoImpl.java:94 | `%.2f` text: a leading `-` exactly for a negative amount, a `.` before two final digits, and an integer part that starts with `0` only when it is exactly `0`, which is when the amount is under one unit |
| Amounts.FormatCentsDecodes | core/src/main/java/com/rtpascual/ledger/core/dao/LedgerDaoImpl.java:94-95 | `$` followed by the formatted amount is an accepted token and decodes to the same number of cents |
| Amounts.StripGroupingExample | core/src/main/java/com/rtpascual/ledger/core/dao/LedgerDaoImpl.java:60 | removing `$` and `,` turns "1,234" into "1234" |
| Amounts.DecodeGroupedExample | core/src/main/java/com/rtpascual/ledger/core/dao/LedgerDaoImpl.java:58-60 | "$1,234.56" is a token worth 123456 cents |
| Amounts.DecodeNoDigitsExample | core/src/main/java/com/rtpascual/ledger/core/dao/LedgerDaoImpl.java:58-60 | "$,.00" is a token worth zero |
| Amounts.DecodeNegativeExample | core/src/main/java/com/rtpascual/ledger/core/dao/LedgerDaoImpl.java:58-60 | "$-7.05" is a token worth -705 cents |
| Lines.SplitLines | core/src/main/java/com/rtpascual/ledger/core/dao/LedgerDaoImpl.java:40 | `readLine` gives lines without breaks, and a non-empty text without a break is one line |
| Lines.JoinLines | core/src/main/java/com/rtpascual/ledger/core/dao/LedgerDaoImpl.java:90-96 | each line followed by a line feed, as the `write`/`newLine()` pairs produce: empty exactly when there are no lines, and otherwise ending with a line feed |
| Lines.SplitJoinLines | core/src/main/java/com/rtpascual/ledger/core/dao/LedgerDaoImpl.java:40 | lines without breaks, each written with a line feed after it, are read back by `readLine` as the same lines |
| Lines.SplitLinesAfterNewline | core/src/main/java/com/rtpascual/ledger/core/dao/LedgerDaoImpl.java:89-90 | appending text that starts with a line feed keeps the old lines, adds one blank line only when the old text ended with a line feed or was empty, then the new lines |
| LineParser.MatchHeader | core/src/main/java/com/rtpascual/ledger/core/dao/LedgerDaoImpl.java:37 | a match gives a date text of the header's shape and a description without line terminators |
| LineParser.HeaderPatternSemantics | core/src/main/java/com/rtpascual/ledger/core/dao/LedgerDaoImpl.java:37-42 | the header recogniser succeeds iff the pattern matches the whole line, and then gives the date and the text after the longest run of spaces |
| LineParser.RestAcceptedMatches | core/src/main/java/com/rtpascual/ledger/core/dao/LedgerDaoImpl.java:38 | skipping leading whitespace and testing for a token accepts exactly what `\s*(token)?` matches |
| LineParser.AccountEnd | core/src/main/java/com/rtpascual/ledger/core/dao/LedgerDaoImpl.java:38 | the name end the engine settles on lets the rest match, and no longer name does |
| LineParser.AmountGroup | core/src/main/java/com/rtpascual/ledger/core/dao/LedgerDaoImpl.java:38 | the amount group is absent exactly when only whitespace follows the name; otherwise it is the token at the end of the line |
| LineParser.MatchPosting | core/src/main/java/com/rtpascual/ledger/core/dao/LedgerDaoImpl.java:38 | a match gives a `[\w:]+` name and, if present, an accepted amount token |
| LineParser.PostingPatternSemantics | core/src/main/java/com/rtpascual/ledger/core/dao/LedgerDaoImpl.java:38 | the posting recogniser succeeds iff the pattern matches the whole line, and then returns the backtracking engine's groups: the whole indent and the longest possible name |
| LineParser.PostingNoMatch | core/src/main/java/com/rtpascual/ledger/core/dao/LedgerDaoImpl.java:38 | when the recogniser fails, no split of the line matches the pattern |
| LineParser.PostingMatchLongest | core/src/main/java/com/rtpascual/ledger/core/dao/LedgerDaoImpl.java:38 | no match of the pattern has a longer account name than the one returned |
| LineParser.PostingMatchGroups | core/src/main/java/com/rtpascual/ledger/core/dao/LedgerDaoImpl.java:38 | what the recogniser returns are the groups of a match of the pattern |
| LineParser.WrittenHeaderMatches | core/src/main/java/com/rtpascual/ledger/core/dao/LedgerDaoImpl.java:91 | a written header line gives back its date text and its description |
| LineParser.WrittenPostingMatches | core/src/main/java/com/rtpascual/ledger/core/dao/LedgerDaoImpl.java:95 | a written posting line gives back its name and its amount token |
| LineParser.BacktrackingExample | core/src/main/java/com/rtpascual/ledger/core/dao/LedgerDaoImpl.java:38 | "  Cash100.00" reads as account "Cash10" with token "0.00" |
| Reader.IsNullOrEmpty | core/src/main/java/com/rtpascual/ledger/core/dao/LedgerDaoImpl.java:104-106 | holds for an absent text, and never for an accepted amount token |
| Reader.Initial | core/src/main/java/com/rtpascual/ledger/core/dao/LedgerDaoImpl.java:34-36 | the scan starts with nothing emitted and a pending transaction dated today, with an empty description and no postings |
| Reader.Pending | core/src/main/java/com/rtpascual/ledger/core/dao/LedgerDaoImpl.java:74-78 | the transaction built from the loop's current date, description and postings, here and in the flush at lines 44-48 |
| Reader.Flushed | core/src/main/java/com/rtpascual/ledger/core/dao/LedgerDaoImpl.java:43-51 | the pending transaction is emitted after the earlier ones exactly when it has postings; otherwise nothing is added |
| Reader.AmountGroupNeverEmpty | core/src/main/java/com/rtpascual/ledger/core/dao/LedgerDaoImpl.java:104-106 | the null-or-empty test on the amount group holds exactly when the group is absent |
| Reader.PostingOf | core/src/main/java/com/rtpascual/ledger/core/dao/LedgerDaoImpl.java:57-69 | the posting's account has the parsed name and the posting's amount as balance; the amount is absent iff the group is, and is otherwise the decoded token |
| Reader.Step | core/src/main/java/com/rtpascual/ledger/core/dao/LedgerDaoImpl.java:41-70 | one line keeps the scan state well formed and never drops an emitted transaction; what a header line does on any input is stated by `Reader.ScanHeaderBlock`, and what any other line does by `Reader.ScanNonHeader` |
| Reader.Scan | core/src/main/java/com/rtpascual/ledger/core/dao/LedgerDaoImpl.java:40-72 | the loop keeps the state well formed, and emitted transactions only grow |
| Reader.ReadLedger | core/src/main/java/com/rtpascual/ledger/core/dao/LedgerDaoImpl.java:73-79 | a successful read is never empty; every transaction but the last has postings; every posting is well formed |
| Reader.ScanFails | core/src/main/java/com/rtpascual/ledger/core/dao/LedgerDaoImpl.java:52 | the scan fails iff some line is a header with a refused date, and the error carries the date text of the first such header |
| Reader.ReadLedgerFails | core/src/main/java/com/rtpascual/ledger/core/dao/LedgerDaoImpl.java:52 | a read fails iff the file has a header with a refused date |
| Reader.ScanAppend | core/src/main/java/com/rtpascual/ledger/core/dao/LedgerDaoImpl.java:40-72 | scanning two runs of lines is scanning the second from where the first left off, and a failure in the first stops it |
| Reader.NoiseLineIgnored | core/src/main/java/com/rtpascual/ledger/core/dao/LedgerDaoImpl.java:41-56 | a line that is neither header nor posting can be removed without changing the read |
| Reader.HeaderAfterHeader | core/src/main/java/com/rtpascual/ledger/core/dao/LedgerDaoImpl.java:43-53 | of two headers in a row, the first (with a valid date) can be removed without changing the read |
| Reader.ScanNonHeader | core/src/main/java/com/rtpascual/ledger/core/dao/LedgerDaoImpl.java:55-69 | a non-header line adds its posting, if it is a posting line, and changes nothing else |
| Reader.ScanWithoutHeaders | core/src/main/java/com/rtpascual/ledger/core/dao/LedgerDaoImpl.java:40-72 | without headers the scan only appends the postings of the posting lines, in order |
| Reader.LedgerWithoutHeaders | core/src/main/java/com/rtpascual/ledger/core/dao/LedgerDaoImpl.java:73-79 | a ledger without headers reads as one transaction dated today with an empty description and all its postings |
| Writer.HeaderText | core/src/main/java/com/rtpascual/ledger/core/dao/LedgerDaoImpl.java:91 | the header line, for a description without line terminators or a leading space, is read back as the written date text and the description |
| Writer.PostingText | core/src/main/java/com/rtpascual/ledger/core/dao/LedgerDaoImpl.java:94-95 | a posting line with an amount and a `[\w:]+` name is read back as that name and `$` followed by the formatted amount |
| Writer.Serialize | core/src/main/java/com/rtpascual/ledger/core/dao/LedgerDaoImpl.java:89-97 | the appended text starts with a line break, and for a writable transaction the rest splits into the header line and the posting lines |
| Reader.ScanHeaderBlock | core/src/main/java/com/rtpascual/ledger/core/dao/LedgerDaoImpl.java:41-69 | a header with a date that parses, followed by any lines that are not headers (postings and noise in any order), emits the pending transaction if it has postings and leaves pending a transaction with the header's date and description and the postings of those lines, in order |
| Reader.ScanNextBlocks | core/src/main/java/com/rtpascual/ledger/core/dao/LedgerDaoImpl.java:43-53 | a header block with postings is emitted, in front of the rest, when the next header starts |
| Reader.ScanBlocks | core/src/main/java/com/rtpascual/ledger/core/dao/LedgerDaoImpl.java:40-72 | from any state, header blocks each but the last with postings emit every block but the last, in order, and leave the last one pending |
| Reader.ReadBlocks | core/src/main/java/com/rtpascual/ledger/core/dao/LedgerDaoImpl.java:30-85 | a file of N header blocks, each header's date parsing and each block but the last holding a posting line, reads as exactly N transactions in file order, each with its header's date and description and the postings of its lines |
| Writer.AmountText | core/src/main/java/com/rtpascual/ledger/core/dao/LedgerDaoImpl.java:94 | an absent amount is printed as "nu", "null" cut to two characters |
| Writer.PostingLines | core/src/main/java/com/rtpascual/ledger/core/dao/LedgerDaoImpl.java:93-97 | one posting line per posting, in order |
| Writer.WrittenStart | core/src/main/java/com/rtpascual/ledger/core/dao/LedgerDaoImpl.java:90-92 | before any posting, the appended text is a line break, the header line and a line break |
| Writer.WrittenStep | core/src/main/java/com/rtpascual/ledger/core/dao/LedgerDaoImpl.java:93-97 | each loop turn appends the next posting line and a line break |
| Writer.WrittenAll | core/src/main/java/com/rtpascual/ledger/core/dao/LedgerDaoImpl.java:93-97 | after the last posting the appended text is the whole serialised transaction |
| Writer.AppendedHeader | core/src/main/java/com/rtpascual/ledger/core/dao/LedgerDaoImpl.java:90-92 | the file after the first three writes is the old text followed by the text written so far |
| Writer.AppendedPosting | core/src/main/java/com/rtpascual/ledger/core/dao/LedgerDaoImpl.java:94-96 | writing the next posting line and a line break extends the text written so far by one posting |
| Writer.SerializeStartsWithBreak | core/src/main/java/com/rtpascual/ledger/core/dao/LedgerDaoImpl.java:90 | the appended text is a line break, then the body lines each ended by a line feed |
| Writer.BodyLinesSplit | core/src/main/java/com/rtpascual/ledger/core/dao/LedgerDaoImpl.java:91-96 | the written header and posting lines are read back by `readLine` as the same lines |
| RoundTrip.PostingLineReads | core/src/main/java/com/rtpascual/ledger/core/dao/LedgerDaoImpl.java:95 | a written posting line with an amount is no header, and reads back as its posting: same name, same amount |
| RoundTrip.AbsentAmountLineIgnored | core/src/main/java/com/rtpascual/ledger/core/dao/LedgerDaoImpl.java:94-95 | the line written for a posting without an amount is neither a header nor a posting line |
| RoundTrip.ScanPostingLines | core/src/main/java/com/rtpascual/ledger/core/dao/LedgerDaoImpl.java:55-69 | the written posting lines add their postings, read back, in order |
| RoundTrip.ScanBody | core/src/main/java/com/rtpascual/ledger/core/dao/LedgerDaoImpl.java:41-69 | the written header flushes what was pending and starts the saved transaction, which its posting lines fill |
| RoundTrip.SavedLines | core/src/main/java/com/rtpascual/ledger/core/dao/LedgerDaoImpl.java:89-97 | the lines after a save are the old lines, at most one blank line, the header and the posting lines |
| RoundTrip.ReadAfterSave | core/src/main/java/com/rtpascual/ledger/core/dao/LedgerDaoImpl.java:88-97 | saving a writable transaction to a ledger that reads without error: the old read, less a trailing transaction without postings, followed by the saved transaction's normalized form |
| RoundTrip.ReadSavedTransaction | core/src/main/java/com/rtpascual/ledger/core/dao/LedgerDaoImpl.java:88-97 | one writable transaction saved to an empty ledger reads back as its normalized form alone: same date, description, names and amounts, each account's balance set to its posting's amount |
| RoundTrip.SaveAfterPosted | core/src/main/java/com/rtpascual/ledger/core/dao/LedgerDaoImpl.java:88-97 | saving a writable transaction after a ledger whose last transaction has postings appends the saved transaction's normalized form to what it read as |
| RoundTrip.SavedNextReadsBack | core/src/main/java/com/rtpascual/ledger/core/dao/LedgerDaoImpl.java:88-97 | if a saved ledger reads back as its transactions' normalized forms on every date and its last one has postings, so does the ledger after one more writable save |
| RoundTrip.SavedLedgerReadsBack | core/src/main/java/com/rtpascual/ledger/core/dao/LedgerDaoImpl.java:30-102 | by induction on the number of saves: writable transactions saved in order, each but the last with postings, read back on every date as their normalized forms in order |
| RoundTrip.ReadSavedLedger | core/src/main/java/com/rtpascual/ledger/core/dao/LedgerDaoImpl.java:30-102 | writable transactions saved in order, each but the last with postings, read back as their normalized forms (`RoundTrip.Normalized`) in that order |
| LedgerStore.LedgerDao.constructor | core/src/main/java/com/rtpascual/ledger/core/dao/LedgerDaoImpl.java:25-27 | the store starts with the given file text |
| LedgerStore.LedgerDao.GetAllTransactions | core/src/main/java/com/rtpascual/ledger/core/dao/LedgerDaoImpl.java:30-85 | the reading loop returns the pure read of the file's lines |
| LedgerStore.LedgerDao.SaveTransaction | core/src/main/java/com/rtpascual/ledger/core/dao/LedgerDaoImpl.java:88-102 | the new file text is the old text followed by the serialised transaction |
| LedgerExamples.FormatGasAmounts | core/src/main/java/com/rtpascual/ledger/core/dao/LedgerDaoImpl.java:94 | 4000 and -4000 cents format as "40.00" and "-40.00" |
| LedgerExamples.SavedGasTransactionText | core/src/test/java/com/rtpascual/ledger/core/dao/LedgerDaoImplTest.java:66-97 | saving the test's "Gas" transaction appends exactly the text the test expects |
| LedgerExamples.ReadThreeTransactions | core/src/test/java/com/rtpascual/ledger/core/dao/LedgerDaoImplTest.java:38-64 | three saved two-posting transactions read back as three, with their dates, descriptions, posting counts and first postings |
| LedgerExamples.ReadSampleLedger | core/src/test/java/com/rtpascual/ledger/core/dao/LedgerDaoImplTest.java:38-64 | the sample ledger reads as the three transactions the test asserts |

## Left out

- File I/O is not modelled. The store's state is the file's text. Opening, buffering, closing and the `IOException` handlers (which print a stack trace and return a partial list) are left out.
- The clock is a parameter: `LocalDate.now()` becomes the `today` argument of the read.
- `readLine` is modelled on the whole text at once: lines end at "\n", "\r" or "\r\n", and text after the last break is a line.
- The platform line separator is fixed to "\n" and the formatting locale to one with `.` as decimal point, as the tests expect.
- Dates are limited to years 1 to 9999. Reading only produces such years, since the pattern allows four digits and year 0 is refused. Writing a date outside that range, which `LocalDate` allows, is not modelled.
- Amounts are whole numbers of cents. `BigDecimal` scale, and the `HALF_UP` rounding that `%.2f` applies to an amount with more than two decimals, are not modelled. Every amount the reader produces has exactly two decimals.
- `Writer.Writable` (every amount present, names of `[\w:]+`, a description without line terminators that does not start with a space) is required only by the round-trip lemmas. The writer itself accepts any transaction.
- The general `java.util.regex` engine is not modelled, only the two patterns as recognisers. `\w`, `\s` and `\d` are taken in their ASCII sense, and the `.` of the header pattern excludes "\n", "\r", U+0085, U+2028 and U+2029.
- Strings are sequences of characters, not UTF-16 code units; no case folding or normalisation is involved.
- Lombok builders are not modelled; records are plain datatypes. The builder copies the postings list (`@Singular`), so clearing the pending list after emitting a transaction cannot change it. The model, built on values, has no aliasing to begin with.
- `Registry.AccountRegistry.FindByName` models the registry as a value. The Java registry keeps a reference to the caller's map, so later changes the caller makes to that map would show through; that aliasing is not modelled.
- `AccountDTO` is not modelled because no core code uses it, and the `LedgerDao` interface declares nothing beyond the two operations.
- The sample ledger file read by the test is not part of this model. `LedgerExamples.SampleLedger` is a ledger written by the store that holds the transactions the test asserts.
- Double-entry balance is neither checked by the code nor stated by the model.
