# Business-card extractor: classification and contact store, in Dafny

This project models the core of a business-card extractor. One part turns
the OCR text of a card into a contact card. The other keeps those cards in
a SQL table of contacts.

- **Classification** (`classify.py`):
  - `classify_text` runs three regular-expression searches over the whole
    text: phone, email and website.
  - It removes every match from the text, then sorts the remaining lines
    with keyword heuristics. The first line is the name. Every later line
    goes to the designation, company or address list.
  - `validate_phone`, `validate_email` and `validate_website` are the
    anchored forms of the same patterns.
- **Contact store** (`database.py`; `src/core/database.py` is an identical
  copy, so one model covers both):
  - the connection settings and the SQLAlchemy URL built from them;
  - how a card's three lists are flattened into one `", "`-joined column on
    store or update, and split back on fetch by id;
  - duplicate detection against the stored contacts;
  - merging two contacts into one;
  - the row rules and result bookkeeping of the CSV import.

Modules, one per file:

| module | file | what it holds |
|---|---|---|
| `Wrappers` | `wrappers.dfy` | `Option` and `Result` |
| `Text` | `text.dfy` | Python's `strip`, `lower`, `split`, `join`, `in`, `split()` word count, `str(n)` |
| `Patterns` | `patterns.dfy` | the three search patterns as hand-written matchers; `re.findall` and `re.sub` as one left-to-right scan |
| `Validators` | `validators.dfy` | the three anchored validators |
| `Records` | `records.dfy` | the card, the stored row, flatten and unflatten, `update_contact`'s parameters, comma tokens |
| `Classify` | `classify.dfy` | `classify_text`: keyword tables, the line heuristics, the bucket loop |
| `Connection` | `connection.dfy` | the constructor's type normalisation and `get_connection_string` |
| `Duplicates` | `duplicates.dfy` | `check_duplicates` |
| `Merge` | `merge.dfy` | fetch by id, `update_contact`, `delete_contact`, `merge_contacts` |
| `CsvImport` | `csvimport.dfy` | `import_from_csv` |

Regular expressions are not interpreted generically. Each pattern's
backtracking was worked out by hand and written as a direct matcher. In
the phone tail, every optional character is followed by a test it cannot
pass, so the optional is always taken when present. Only the country-code
group backtracks: it tries three, two and one digits, then goes without
the group. In the email and website domain, the greedy run backs off to
the last dot that has two letters after it.

Several behaviours of the code as written are stated as lemmas rather than
smoothed over:

- `re.findall` on the phone pattern returns its one group, the country
  code. So the phone list holds codes such as `"+1 "`, and
  `validate_phone` accepts none of them (`PhonesAreCountryCodes`,
  `CountryCodeIsNotAPhone`).
- Keywords match inside words:
  - a line holding "associates" is always taken for a designation, because
    "associate" is a designation keyword (`AssociatesIsDesignation`);
  - "Victoria Street" is a designation, because it contains "cto"
    (`VictoriaIsDesignation`).
- The postal-code and street-abbreviation tests never change the outcome.
  A line with a digit and no designation or company keyword becomes an
  address whichever way it goes (`DigitLineIsAddress`).
- Merging a contact with itself deletes it (`MergeWithSelfDeletes`).
- The early exits of the import report one message in `errors` while
  `error_count` stays 0 (`EarlyExitErrorCount`).

## Model

| member | source | states |
|---|---|---|
| Text.Strip | classify.py:46 | `str.strip()`: the result has no whitespace at either end, is no longer than the input, and is empty exactly when the input is blank |
| Text.StripTrims | classify.py:46 | the strip is the input with a blank prefix and a blank suffix cut off: `Strip(s) == s[i..j]` with `s[..i]` and `s[j..]` blank |
| Text.StripIdempotent | database.py:548 | stripping twice is stripping once |
| Text.Lower | classify.py:107 | `str.lower()` keeps the length and lower-cases each character in place |
| Text.SplitOn | database.py:429 | `s.split(sep)` gives at least one piece; joining the pieces with `sep` gives `s` back; no piece contains `sep` |
| Text.SplitJoinRoundTrip | database.py:429 | splitting a join gives the pieces back when none of them can be confused with the separator |
| Text.JoinHoldsEntries | database.py:229-231 | every entry of `sep.join(xs)` occurs in the result |
| Text.JoinHead | classify.py:79 | a join starts with the first character of its first entry |
| Text.JoinEmptyIff | classify.py:141 | a join of non-empty pieces is empty exactly when there are no pieces |
| Text.NatToDecimal | database.py:383 | `str(n)` is a non-empty string of digits with no leading zero |
| Text.DecimalRoundTrip | database.py:383 | reading back the decimal rendering of a number gives the number |
| Text.WordCountAppend | classify.py:126 | `len(s.split())` adds up over two strings that meet at whitespace |
| Text.WordCountJoin | classify.py:126 | `len(s.split())` of words joined with single spaces is the number of words |
| Patterns.PhoneTail | classify.py:60 | the part of the phone pattern after the country code ends at least ten characters after it starts |
| Patterns.CountryCodeCapture | classify.py:60 | the text of the country-code group is an optional plus, one to three digits and an optional separator |
| Patterns.PhoneWithCode | classify.py:60 | a match through the country-code group captures a well-formed country code |
| Patterns.PhoneAt | classify.py:60-61 | a phone match consumes at least one character, and what `re.findall` reports for it is empty or a country code |
| Patterns.LastTldDot | classify.py:65 | finds the last dot with two letters after it in a window: no later dot qualifies |
| Patterns.DomainAt | classify.py:65 | a domain match spells `[a-zA-Z0-9.-]+\.[a-zA-Z]{2,}` |
| Patterns.EmailAt | classify.py:65-66 | an email match reports its whole text, and that text has the email shape |
| Patterns.WebsiteAt | classify.py:69-71 | a website match reports the domain group, and it has the domain shape |
| Patterns.ScanRejoins | classify.py:74-76 | the left-to-right scan behind `re.findall` and `re.sub` loses and invents nothing: kept characters and matched texts, rejoined in order, are the input |
| Patterns.ScanCapturesOk | classify.py:61-71 | every capture the scan reports has the shape of the pattern's reported group |
| Patterns.FindAll | classify.py:61-71 | every entry `re.findall` returns has the shape of the reported group: a country code or empty, an email, a bare domain |
| Patterns.NoMatchFromIff | classify.py:74-76 | "the pattern matches nowhere from position i on" (`NoMatchFrom`, the form the removal contracts use) holds exactly when every such position fails to match |
| Patterns.Sub | classify.py:74-76 | `re.sub(p, '', s)` only deletes characters of `s` (a subsequence), and returns `s` itself when the pattern matches nowhere in it |
| Patterns.ScanKeeps | classify.py:74-76 | the characters a scan keeps are the scanned text with its matches deleted |
| Validators.DomainWholeIff | classify.py:197 | the anchored domain test accepts exactly the strings of domain shape |
| Validators.EmailWholeIff | classify.py:183 | the anchored email test accepts exactly the strings of email shape |
| Validators.ValidateEmail | classify.py:173-184 | `validate_email(s)` holds exactly when the stripped `s` has the email shape |
| Validators.ValidEmailFacts | classify.py:183-184 | an accepted email has exactly one at-sign and ends in a dot and two or more letters |
| Validators.ExtractedEmailValidates | classify.py:183-184 | every string of email shape passes `validate_email` |
| Validators.WebsiteWholeIff | classify.py:197 | the anchored website test accepts exactly a domain, optionally behind `http://` or `https://` |
| Validators.ValidateWebsite | classify.py:187-198 | `validate_website(s)` holds exactly when the stripped `s` is a domain, optionally behind one of the two schemes |
| Validators.ExtractedWebsiteValidates | classify.py:197-198 | every domain passes `validate_website` and carries no scheme |
| Validators.PhoneTailDigits | classify.py:169 | the phone tail always holds exactly ten digits |
| Validators.ValidPhoneDigitCount | classify.py:169-170 | an accepted phone number carries ten to thirteen digits |
| Validators.TenDigitsAccepted | classify.py:169-170 | ten bare digits are accepted |
| Validators.ParenthesisedAreaCodeAccepted | classify.py:169-170 | `(ddd) ddd-dddd` is accepted |
| Validators.CountryCodeIsNotAPhone | classify.py:169-170 | no country-code capture is accepted as a phone number |
| Records.Unflatten | database.py:429-431 | the fetch-side split is empty exactly for the empty column, and joining its result gives the column back |
| Records.UnflattenFlatten | database.py:429-431 | a stored list comes back from fetch unchanged exactly when it is not `[""]` and no entry contains `", "` |
| Records.Flatten | database.py:229-231 | `", ".join(xs)` is empty exactly for no entries or one empty entry, and every entry occurs in it |
| Records.StoreRow | database.py:227-231 | `store_in_db` keeps the four text fields as they are, and each list column is one that a fetch splits back into the card's list whenever that list round-trips |
| Records.FetchCard | database.py:427-431 | the fetched card keeps the four text columns, and storing it again writes the same row |
| Records.StoreFetchRoundTrip | database.py:227-231 | storing a card and fetching it back gives the card exactly when each of its three lists round-trips |
| Records.UpdateRow | database.py:497-518 | `update_contact` writes a missing field as the empty string, a string value verbatim, and a list value as a column that a fetch splits back into the list whenever it round-trips |
| Records.UpdateAgreesWithStore | database.py:501-503 | updating with a card writes the same row as storing it |
| Records.UpdateWithStringsIsIdentity | database.py:501-503 | updating with an all-string dictionary writes it unchanged |
| Records.UpdateWithNothingBlanks | database.py:497-504 | an empty dictionary blanks every column |
| Records.Tokens | database.py:165 | every comma token is non-empty, stripped and comma-free |
| Records.FlattenedTokens | database.py:568 | the comma tokens of a flattened list are its non-blank entries, stripped, in order, when no entry holds a comma |
| Classify.AnyKeyword | classify.py:110 | `any(k in s for k in keywords)` holds exactly when some keyword occurs in `s` |
| Classify.HasDigit | classify.py:126 | holds exactly when some character is a digit |
| Classify.FiveDigitsFrom | classify.py:119 | the postal-code search succeeds exactly when five digits stand in a row |
| Classify.PostalCodeHasDigit | classify.py:119-123 | a line with a postal code has a digit |
| Classify.ClassifyLine | classify.py:106-129 | a line is a designation exactly when a designation keyword occurs in it; it is a company exactly when no designation keyword occurs and either a company keyword occurs or it has no address indicator, no digit and at most three words; otherwise an address |
| Classify.DigitLineIsAddress | classify.py:115-129 | a line with a digit and no designation or company keyword is an address |
| Classify.DesignationKeywordInside | classify.py:110-111 | any designation keyword inside the lower-cased line decides it |
| Classify.AssociatesIsDesignation | classify.py:87-114 | a line containing "associates" is never a company line |
| Classify.VictoriaIsDesignation | classify.py:87-111 | a line starting with "Victoria" is a designation |
| Classify.CleanLines | classify.py:46 | every cleaned line is non-empty, stripped and free of newlines |
| Classify.CleanLinesOfJoin | classify.py:79 | cleaning lines joined with "\n" gives their non-blank members, stripped, in order |
| Classify.CleanLinesRoundTrip | classify.py:79 | lines that are already non-empty, stripped and newline-free come back unchanged |
| Classify.SortLines | classify.py:102-129 | the loop fills each list with exactly the lines of its kind, in text order |
| Classify.BucketedSound | classify.py:102-129 | each list holds only lines of the text classified into it |
| Classify.BucketsCover | classify.py:102-129 | every line is in the list of its kind |
| Classify.BucketSizes | classify.py:102-129 | the three list lengths add up to the number of lines: each line lands in exactly one |
| Classify.BucketedFirst | classify.py:131-137 | the first entry of a list is the earliest line of that kind |
| Classify.Positions | classify.py:106-129 | the indices of the lines of one kind, strictly increasing, every such line included |
| Classify.BucketedInOrder | classify.py:102-129 | a list's `m`-th entry is the line at the `m`-th position of its kind: exactly the lines of that kind, in text order |
| Classify.PhonesAreCountryCodes | classify.py:60-62 | every phone entry is a one-to-three-digit country code that `validate_phone` rejects |
| Classify.EmailsValidate | classify.py:65-66 | every extracted email passes `validate_email` |
| Classify.WebsitesValidate | classify.py:69-71 | every extracted website passes `validate_website` and has no scheme |
| Classify.Residual | classify.py:74-76 | what the three removals leave is the text with characters deleted, and the text itself when no pattern matches anywhere |
| Classify.ClassifyText | classify.py:15-156 | blank text gives the empty card; phones are country codes; emails and websites validate; the name is one stripped line; the designation and the company are lines of their kind |
| Classify.FirstOfKindWins | classify.py:131-137 | the designation (company) is empty exactly when no later line is of that kind, and is otherwise the earliest such line |
| Classify.CleanLinesTail | classify.py:79 | no line after the name is empty |
| Classify.AddressJoinsAddressLines | classify.py:139-141 | the address is empty exactly when no line was classified as an address |
| Classify.NameIsFirstLine | classify.py:79-84 | the name is the first cleaned residual line, whatever it says, and the heuristics sort the lines after it |
| Classify.AddressValue | classify.py:139-141 | the address is the address lines joined with ", " (in text order by `BucketedInOrder`) |
| Classify.PlainLinesCard | classify.py:74-141 | for a text of clean lines where no pattern matches, the name is the first line, the rest are sorted, and the address is the address lines among them joined with ", " |
| Connection.NormalizeDbType | database.py:39 | a missing or empty type is "mysql"; otherwise the stored type is the given one with each character lower-cased in place |
| Connection.NewSettings | database.py:25-60 | the settings yield a URL exactly when the type is missing, empty, or lower-cases to one of the three supported types |
| Connection.ConnectionString | database.py:49-60 | a URL exactly for mysql, postgresql and sqlite; otherwise the "Unsupported database type" error naming the type |
| Connection.NormalizeIdempotent | database.py:39 | normalising a normalised type changes nothing |
| Connection.CaseInsensitive | database.py:39-60 | two spellings of the type that lower-case alike give the same URL or error |
| Connection.DefaultPorts | database.py:50-55 | without a port, or with the falsy 0 or "", MySQL uses 3306 and PostgreSQL 5432 |
| Connection.ExplicitPort | database.py:50-55 | a non-zero number or non-empty string port appears in the URL as given |
| Connection.ZeroPortDependsOnType | database.py:53-55 | the number 0 falls back to 5432 but the string "0" is written into the URL |
| Connection.DefaultSqlitePath | database.py:56-58 | without a path, SQLite uses `<database>.db` |
| Connection.DefaultManagerUrl | database.py:25-52 | the default manager connects to the local `business_cards` MySQL database as root on 3306 |
| Connection.MissingTypeIsMysql | database.py:39-52 | a missing or empty type is MySQL and always yields a URL |
| Duplicates.SharesKey | database.py:167-171 | the nested loops find a match exactly when some key is in both lists |
| Duplicates.Matches | database.py:155-182 | each kind is listed exactly when it matches (names equal and non-blank; a shared phone or email token, trimmed and lower-cased), in name-phone-email order, each once |
| Duplicates.Flagged | database.py:154-198 | every reported entry is a stored contact with its non-empty match fields |
| Duplicates.CheckDuplicates | database.py:121-207 | an unreadable or empty store reports nothing; otherwise the entries are the flagged contacts in store order, `has_duplicates` holds exactly when there is one, and `duplicate_fields` is exactly the union of their match fields |
| Duplicates.FlaggedComplete | database.py:184-198 | every contact with a match is reported, with its match fields |
| Duplicates.FlaggedAppend | database.py:154-198 | the report over two stores in sequence is the two reports in sequence |
| Duplicates.StoredCopyMatchesName | database.py:158-160 | a stored copy of a card with a non-blank name matches on the name |
| Duplicates.StoredCopyMatchesLists | database.py:162-182 | a stored copy of a card with a phone (email) matches on phone (email) |
| Duplicates.WholeTokenPhoneMatch | database.py:163-171 | phones match as whole tokens, equal after lower-casing, not as substrings |
| Duplicates.EmptyCardMatchesNothing | database.py:141-182 | a card with no name, phone or email matches nothing |
| Merge.Longer | database.py:548-550 | the stripped value of one side, at least as long as both; the first side wins a tie |
| Merge.Dedup | database.py:570 | `list(set(xs))` holds the same strings, each once |
| Merge.MergeRows | database.py:545-583 | each text column is the longer stripped value, the kept contact's on a tie; each list column is the tokens of either side, each once, joined with ", " |
| Merge.UnionTokens | database.py:568-583 | a merged list column is its own tokens joined with ", ", and those are exactly the tokens of either side, each once |
| Merge.UnionTokensSymmetric | database.py:568-571 | the merged token set does not depend on the order of the two contacts |
| Merge.LongerPrefersFirstOnTie | database.py:550 | on equal lengths the kept contact's value wins |
| Merge.MergeWithBlank | database.py:545-583 | merging with a blank row keeps the row's stripped texts and all its tokens |
| Merge.Lookup | database.py:422-437 | a fetch by id returns a stored contact with that id, or nothing when there is none |
| Merge.UpdateStore | database.py:508-518 | the update rewrites the rows with that id and no others |
| Merge.DeleteStore | database.py:455 | the delete keeps exactly the contacts with another id |
| Merge.MergeContacts | database.py:524-602 | a missing contact or a failed update leaves the store unchanged; the merge succeeds exactly when both contacts exist and neither the update nor the delete fails |
| Merge.DeleteFailureKeepsUpdate | database.py:591-595 | a failed delete leaves the merged row written over the kept contact |
| Merge.UpdateStoreFacts | database.py:508-518 | updating a present id writes the row under it and touches no other id |
| Merge.MergeWrites | database.py:585-598 | without faults the merged row is written over `keep`, then `remove` is deleted |
| Merge.MergeSuccess | database.py:585-598 | after a successful merge of two ids the removed one is gone and the kept one holds the merged row |
| Merge.MergeKeepsOthers | database.py:585-598 | a successful merge changes no other contact |
| Merge.MergeWithSelfDeletes | database.py:524-598 | merging a contact with itself succeeds and deletes it |
| CsvImport.MissingColumns | database.py:338-339 | exactly the required columns the file lacks, in the required order |
| CsvImport.CleanRowSpec | database.py:358-364 | a cleaned record has every cell stripped; its name (company) is empty exactly when the cell was blank |
| CsvImport.Dispositions | database.py:355-383 | one decision per record |
| CsvImport.ImportRecord | database.py:355-383 | one pass of the loop extends the decisions, the table, the counts and the messages by the next record's decision |
| CsvImport.ImportRows | database.py:351-383 | the loop produces the reference decisions; `success_count` counts the inserts; `error_count` counts the messages |
| CsvImport.ImportFromCsv | database.py:310-406 | the connection failure, empty-file and missing-column exits give their fixed results; otherwise the result counts the inserts and lists one message per failed insert |
| CsvImport.DispositionsStable | database.py:355-383 | a record's decision does not depend on the records after it |
| CsvImport.DecideCases | database.py:366-383 | a record is skipped as blank, skipped as a clashing duplicate, failed with its numbered message, or inserted as cleaned, each exactly under its condition |
| CsvImport.DispositionAt | database.py:366-379 | record `k` is decided against the stored rows plus the records inserted before it |
| CsvImport.BlankRecordSkipped | database.py:366-368 | a record with a blank name and a blank company is skipped |
| CsvImport.InsertedAreFresh | database.py:370-378 | with skipping on, an inserted record is not blank and clashes with no stored or earlier-inserted row |
| CsvImport.ErrorsAreRowErrors | database.py:381-383 | every error message is `Row <index + 1>: <message>` for a failed insert |
| CsvImport.CountsBounded | database.py:351-383 | inserts, errors and skips add up to the number of records |
| CsvImport.EarlyExitErrorCount | database.py:341-348 | the missing-column and connection-failure exits report one message while `error_count` is 0 |
| CsvImport.AllNonBlankInserted | database.py:366-379 | without skipping and without failures, every non-blank record is inserted as cleaned |

## Left out

- Database I/O: SQLAlchemy engines and connections, pandas frames, the
  `created_at` timestamp and the table's column widths are not modelled.
  The stored contacts are a sequence, and whether a store, update, delete
  or insert fails is a parameter.
- `export_to_csv`, `export_to_excel`, `get_export_template`, `set_db_config`,
  `connect`, `ensure_contacts_table`, `test_connection`, `get_all_contacts`
  and logging are outside the modelled core.
- Exception handlers that only turn an unexpected Python exception into the
  empty result are not modelled. The exception is the import's failed
  connection test, which is modelled with its failure result.
- The `ORDER BY created_at DESC` of `get_all_contacts` is not modelled. The
  duplicate check takes the stored contacts in whatever order they are
  given.
- `get_contact_by_id` (database.py:422-431) runs its query without the id
  parameter and assigns into a result row. As written, every fetch fails
  and so every merge fails. The model fetches by id as intended: the first
  contact with the id, its list columns kept as the `", "`-joined strings
  the merge code goes on to split. `Records.FetchCard` models the list
  conversion of a successful fetch. A fetch that worked would hand the
  merge lists, on which its `.split(',')` (database.py:568-581) would
  fail, so feeding it the joined strings is a further assumption about
  the intended code.
- `import_from_csv` (database.py:350) runs its INSERT once with no
  parameters before the loop. As written, that raises and the import ends
  in its failure result. The model treats the cursor as the working
  statement the loop body evidently intends.
- `CsvImport.ImportRows` decides records that `CsvImport.ImportFromCsv`
  cleaned up front, not cleaning each one inside the loop. Cleaning is
  pure, so the decisions are the same.
- `CsvImport.Clashes` compares strings exactly. The SQL `=` of the
  import's duplicate query (database.py:371) follows the database's
  collation, and MySQL's default one ignores case and trailing spaces;
  collations are not modelled.
- The duplicate query in the import can itself raise. Only insert failures
  are modelled, as a map from record index to exception message.
- pandas reading of the CSV is not modelled: empty cells (NaN, which
  `str()` renders as "nan") and `EmptyDataError` for a file with no
  header. Records arrive as the strings the cells render to.
- `check_duplicates` applies `str()` to stored cells, and a NULL cell
  becomes "None". The model's stored rows hold strings.
- `Connection.PortArg`: the port is a number or a string. Other Python
  values a caller could pass are not modelled.
- Characters: `str.lower()` and `\d` are modelled on ASCII, and
  `str.isspace()` on the full Unicode whitespace set. Other Unicode case
  mappings and digits are not modelled.
- `Merge.Dedup`: `list(set(xs))` leaves the order to Python's hashing. The
  model keeps first occurrences, and its contract states only the contents
  and the absence of repeats.
- `Duplicates.CheckDuplicates`: `duplicate_fields` is a set, because the
  source's `list(set(...))` has no defined order.
- `Validators.ValidatePhone` carries no contract of its own. Its properties
  are the lemmas `ValidPhoneDigitCount`, `TenDigitsAccepted`,
  `ParenthesisedAreaCodeAccepted` and `CountryCodeIsNotAPhone`.
- `Classify.ClassifyText`: its contract states a property of each field,
  not each field's value. The values are stated by lemmas: the name by
  `NameIsFirstLine`, the designation and company by `FirstOfKindWins`, the
  address by `AddressValue` with `BucketedInOrder`.
- `Classify.SortLines` reads each line's kind from a list that `Kinds`
  computes up front, instead of classifying inside the loop.
  Classification is pure, so the lists are the same.
- The `__main__` demo block of `classify.py` is not modelled.
