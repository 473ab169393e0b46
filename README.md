# E-mail validation and spreadsheet cross-reference, modelled in Dafny

This project models the core of a small PHP tool that validates e-mail addresses for a contact
database and cross-references spreadsheets of contacts.

- **index.php.** `validarEmailDetalhado` turns one address into an eight-field verdict:
  - syntax, MX, SMTP, role-based and catch-all flags;
  - the WHOIS creation date and the domain age.

  It consults a syntax validator, DNS, SMTP probes and WHOIS. It keeps a `static` per-request
  cache keyed by domain. Around it sit:
  - the RCPT reply-code rule of `verificarSMTP`;
  - the catch-all test `isCatchAllDomain`;
  - the role-based check;
  - the stored validity flag;
  - `formatarCNPJ`;
  - the CSV upload loop, with its batch cap and counters.
- **relacionador.php.** Reads a sheet of valid addresses into a set of normalised addresses. It then
  searches every row of a second sheet through a fixed mapping of name and e-mail columns. Each hit is
  paired with its block's name, and the resulting list is deduplicated by the key `email|nome`.

## Modules

- `Wrappers` (wrappers.dfy): `Option`.
- `Php` (php.dfy): the PHP string built-ins the core relies on:
  - `trim` with its default character set;
  - ASCII `strtolower` and `substr`;
  - the first and the last occurrence of a character, which are what `explode(...)[0]` and
    `strrchr` look at;
  - `empty()` on strings (`""` and `"0"`);
  - `preg_replace('/\D/', '', ...)`.
- `Config` and `Checks` (checks.dfy):
  - the fixed role list, reply codes and probe local parts;
  - the pure decisions of index.php;
  - the `Network` datatype, whose fields are the oracles: the RFC validator, `checkdnsrr`,
    `getmxrr`, `fsockopen`, the RCPT reply line, `uniqid`, the WHOIS lookup, and the date-to-age
    conversion.
- `Pipeline` (pipeline.dfy):
  - `Verify`, the specification of one call of `validarEmailDetalhado` against a cache;
  - the class `Verifier`, which holds `$domainCache` as a field and runs the call step by step with
    the source's early returns: `ValidateDetailed` is proved equal to `Verify`.

  A ghost log of `Call`s records which oracle was consulted for what. This makes "a cache hit calls
  nothing" and "each domain is probed once" statable.
- `Runs` (runs.dfy): several calls in one request, sharing one cache. It proves what the cache
  guarantees across calls and exhibits the quirks below.
- `CsvImport` (csv_import.dfy):
  - the upload loop of index.php, as a specification function over the loop state (`ImportRows`);
  - a method `ImportCsv` that runs the rows through one `Verifier` and is proved equal to it. The
    source's `while (fgetcsv(...))` loop (index.php:299) becomes a `for` loop over the rows, and its
    `break` and `continue` are kept.

  The database is two things. The set of stored addresses stands for `existeEmail`. An oracle in
  `Env` says whether an INSERT executes.
- `CrossReference` (cross_reference.dfy): relacionador.php from the arrays `lerPlanilha` returns to
  the deduplicated list.
  - A sheet is a sequence of rows of optional cells. A cell for which `isset` is false is `None`.
  - The specification functions fold from the back, as the loops build their results.
  - The three nested loops are three methods.
  - The dedup loop fills an ordered map: a key sequence plus a `map`, which is how a PHP array with
    string keys behaves. `array_values` reads the map back in key order.
  - The join is stated for any pair of clean-up functions (`Clean`). The script's own pair, `trim`
    for names and `strtolower(trim(...))` for addresses, is `PHP_CLEAN`.

## Choices and how the code was read

- The three stored flags, 1/0, are booleans here.
- PHP's loose `in_array` is exact string equality for these values. The role list has no numeric
  entries. The only three-character strings loosely equal to 250 or 251 are `"250"` and `"251"`.
- A failed `fgets` gives `false`, which `trim` turns into `""`. That reply is therefore refused.
- `if ($creationDate)` is string truthiness: `""` and `"0"` count as no date.
- The role check reads only the local part, yet the first address at a domain without MX records
  returns at index.php:191 before reaching it. Such an address is not flagged role based, while a
  later address at the same domain hits the cache and is flagged. `Runs.FirstNoMxAddressSkipsRoleCheck`
  shows both calls.
- A `SmtpCall` entry in the call record logs one call of `verificarSMTP`. That call holds no dialogue when `getmxrr` finds no host or the connection fails (index.php:48-62). A `MxCall` entry logs the `checkdnsrr` check (index.php:182). The DNS lookups `getmxrr` makes inside each probe are not entries of their own.
- `existeEmail` is an exact-match membership test on the addresses stored so far. A successful
  INSERT adds its address.

## Model

| member | source | states |
|---|---|---|
| Php.Trim | index.php:78 | the result is a slice of the input with only trim characters before and after it, it has no trim character at either end, and an input already without one comes back unchanged |
| Php.TrimIdempotent | relacionador.php:61 | trimming twice is trimming once |
| Php.ToLower | index.php:227 | same length, each character lower-cased one by one |
| Php.ToLowerIdempotent | relacionador.php:61 | lower-casing twice is lower-casing once |
| Php.Prefix | index.php:78 | `substr(s, 0, n)`: the first `n` characters, or the whole string when it is shorter |
| Php.Falsy | index.php:311 | defines `empty()` on a string, which is also the truth test of `if ($creationDate)` (index.php:207): exactly "" and "0"; IncompleteRowCounted and WhoisFields state its effect |
| Php.ReplaceChar | index.php:130 | `str_replace` of one character: same length, each occurrence replaced and every other character kept |
| Php.FirstIndexOf | index.php:227 | finds the first occurrence, with none before it, and `None` exactly when the character is absent |
| Php.LastIndexOf | index.php:167 | finds the last occurrence, with none after it, and `None` exactly when the character is absent |
| Php.DigitsOnly | index.php:138 | the result holds only digits, is no longer than the input, and a digits-only input is returned as is |
| Php.DigitsOnlyAppend | index.php:138 | removing non-digits from a concatenation is removing them from each part: every digit is kept, in order |
| Php.DigitsOnlySingle | index.php:138 | a single character is kept exactly when it is a digit |
| Checks.DomainOf | index.php:167 | the domain is the text after the last "@", holds no "@", and is "" when there is no "@" |
| Checks.LocalPartOf | index.php:227 | the local part is the text before the first "@", or the whole address when there is none |
| Checks.IsRoleBased | index.php:227-229 | true exactly when the lower-cased local part is an element of the role list |
| Checks.FormatCnpj | index.php:125-139 | the result is all digits, no longer than the input outside the scientific-notation branch, and a digits-only CNPJ is unchanged |
| Checks.FormatCnpjIdempotent | index.php:125-139 | formatting a formatted CNPJ changes nothing |
| Checks.FormatCnpjPlain | index.php:128-138 | without an "E" or "e" the CNPJ is its digits, every one kept in order |
| Checks.FormatCnpjDropsSeparator | index.php:128-138 | a CNPJ of two digit runs around a "." comes back as the two runs joined |
| Checks.DigitsDropSeparator | index.php:138 | removing non-digits from `a.b` with digit runs `a` and `b` leaves `a` then `b` |
| Checks.ReplyCode | index.php:78 | defines the first three characters of the trimmed reply; its meaning is stated by ReplyAcceptedMeaning |
| Checks.ReplyAccepted | index.php:78-79 | defines the accepting-code test; ReplyAcceptedMeaning, AcceptingReply, FailedReadRefused, OtherCodeRefused and ShortReplyRefused state what it accepts |
| Checks.VerificarSmtp | index.php:46-80 | defines the SMTP probe over the oracles; SmtpProbeMeaning states when it succeeds |
| Checks.IsCatchAllDomain | index.php:85-94 | defines the catch-all test; CatchAllNeedsBothProbes states when it holds |
| Checks.TestAddress | index.php:90 | defines the fixed catch-all probe `test@domain`; ProbeAddressesAtDomain states its domain and local part |
| Checks.RandomAddress | index.php:87-88 | defines the random catch-all probe `invalid_test_<uniqid>@domain`; ProbeAddressesAtDomain states its domain |
| Checks.ProbeAddressesAtDomain | index.php:87-91 | both catch-all probes are addressed to the domain under test, and the fixed one to its `test` mailbox |
| Checks.ReplyAcceptedMeaning | index.php:78-79 | a reply is accepted iff it was read and, trimmed, has at least three characters starting with "250" or "251" |
| Checks.CodeMeaning | index.php:78-79 | the first three characters are an accepting code exactly when there are three and they are "250" or "251" |
| Checks.SmtpProbeMeaning | index.php:46-80 | the probe succeeds iff an MX host exists, the first one connects and its RCPT reply is accepted; no MX or no connection gives false |
| Checks.CatchAllNeedsBothProbes | index.php:85-93 | catch-all iff both the `test@` probe and the random probe succeed, which needs an MX host |
| Checks.TrimKeepsCode | index.php:78 | trimming leading white space before an accepting code leaves that code as the first three characters |
| Checks.AcceptingReply | index.php:78-79 | any reply starting, after white space, with 250 or 251 is accepted whatever follows |
| Checks.FailedReadRefused | index.php:73-79 | a failed read of the reply is refused |
| Checks.OtherCodeRefused | index.php:78-79 | a reply starting with 550 is refused whatever follows |
| Checks.ShortReplyRefused | index.php:78-79 | a reply whose trimmed form is shorter than three characters is refused |
| Checks.LocalPartOfJoin | index.php:227 | the local part of `l@rest` is `l` when `l` holds no "@" |
| Checks.DomainOfJoin | index.php:167 | the domain of `front@d` is `d` when `d` holds no "@" |
| Checks.SplitUsesDifferentAt | index.php:167 | with two "@" the local part (first "@") and the domain (last "@") no longer rebuild the address |
| Checks.SplitSingleAt | index.php:167 | with exactly one "@" local part and domain rebuild the address |
| Checks.RoleBasedIgnoresDomain | index.php:227-229 | the role flag depends on the local part only, and is membership of its lower-case form |
| Checks.AdminIsRoleBased | index.php:38-41 | `Admin@` at any domain is role based with the shipped list |
| Pipeline.DefaultVerdict | index.php:148-157 | defines the initial `$result`; DefaultMatchesNoMx states its shape |
| Pipeline.DefaultMatchesNoMx | index.php:148-190 | the initial `$result` is a well-formed verdict whose domain fields are exactly the entry cached for a domain without MX records (index.php:184-190), an entry with every flag false |
| Pipeline.ProbeCalls | index.php:193-206 | defines the order of the oracle calls on a miss that passes the MX check; ProbeDomain states the imperative stages log exactly these, and ProbeCallsCount and ProbeSmtpCount count them |
| Pipeline.WithFacts | index.php:174-179 | the five domain fields are replaced and email, syntax and role fields are kept |
| Pipeline.ProbeFacts | index.php:193-223 | defines the facts a miss with MX records caches; ProbeDomain states that the imperative stages compute them, and Verify and ValidFlagMeaning state how a verdict carries them |
| Pipeline.IsValidRecord | index.php:249 | defines the stored validity flag (also index.php:323); ValidFlagMeaning states when it holds |
| Pipeline.WhoisFields | index.php:205-214 | the date is kept iff WHOIS gave a true value, and the age is set only together with the date |
| Pipeline.Verify | index.php:145-233 | full behaviour of one call: syntax gate with default record and no cache access; cache hit copies five fields and calls no network oracle; MX miss caches negative facts and returns before the role check; otherwise every probe once, facts cached, role check |
| Pipeline.VerifyKeepsEntries | index.php:170-223 | a call adds at most its own domain to the cache and never changes an existing entry |
| Pipeline.VerifyWellFormed | index.php:148-223 | a well-formed cache stays well formed and every verdict is well formed: a syntax failure is the default record, an MX failure leaves all later fields at default, an age needs a date |
| Pipeline.ValidFlagMeaning | index.php:249 | the stored validity flag holds iff the validator accepts, and MX plus an accepting SMTP probe hold, from the cache on a hit or from the oracles on a miss |
| Pipeline.ProbeDomain | index.php:193-214 | the SMTP, catch-all and WHOIS stages fill exactly the domain fields, in the order their oracles are consulted |
| Pipeline.Verifier.constructor | index.php:170 | a request starts with an empty cache |
| Pipeline.Verifier.ValidateDetailed | index.php:145-233 | the imperative function returns `Verify`'s verdict, leaves its cache and appends its call record, keeping the cache well formed |
| Runs.RunAll | index.php:321 | one verdict per address of the run |
| Runs.RunKeepsEntries | index.php:172-223 | a cache entry, once written, is unchanged for the rest of the run |
| Runs.RunVerdictsMatchCache | index.php:172-179 | every valid address of a run reports the facts its domain has in the final cache |
| Runs.SameDomainSameFacts | index.php:172-179 | two valid addresses at one domain in one run report the same five domain fields |
| Runs.CountCalls | index.php:182-206 | the count is at most the length, and zero exactly when the call is absent |
| Runs.CountCallsAppend | index.php:182-206 | counts add up over concatenation |
| Runs.ProbeCallsCount | index.php:182-206 | a miss with MX runs the `checkdnsrr` MX check and WHOIS for its own domain once each and for no other |
| Runs.VerifyCountsCalls | index.php:172-206 | one call runs the `checkdnsrr` MX check for a domain exactly on a valid uncached address there, and WHOIS only when that check passes too |
| Runs.RunProbesEachDomainOnce | index.php:172-223 | within a run, the `checkdnsrr` MX check and WHOIS run at most once per domain, and never for a domain cached at the start |
| Runs.CountSmtp | index.php:46-80 | the count of logged `verificarSMTP` probes at a domain is at most the length, and zero exactly when there is none |
| Runs.CountSmtpAppend | index.php:46-80 | SMTP counts add up over concatenation |
| Runs.ProbeSmtpCount | index.php:198-201 | a miss with MX records runs three `verificarSMTP` probes at its own domain and none at another |
| Runs.SmtpTriple | index.php:85-94 | three probes at one domain count three for it and none for another |
| Runs.VerifyCountsSmtp | index.php:172-201 | one call runs three `verificarSMTP` probes at a domain exactly on a valid uncached address there that passes the `checkdnsrr` MX check, and none otherwise |
| Runs.RunSmtpPerDomain | index.php:172-223 | within a run, at most three `verificarSMTP` probes run at a domain, and none at a domain cached at the start |
| Runs.RunPair | index.php:321 | a two-address run is the second call on the cache the first left, with the call records in order |
| Runs.TwoAddressesOneDomain | index.php:172-223 | two addresses at one domain with MX: one `checkdnsrr` MX check, one WHOIS lookup, equal facts, and the call record is the first call's followed only by the second address's validator call |
| Runs.FirstNoMxAddressSkipsRoleCheck | index.php:182-191 | the first role address at a domain without MX records is not flagged; the same address again hits the cache and is flagged |
| Runs.SmtpResultIsInherited | index.php:198-223 | a second address at a domain inherits the first's accepting SMTP result, and its validity flag, even when its own probe would fail |
| Runs.RunWellFormed | index.php:148-223 | a run keeps the cache well formed and yields only well-formed verdicts |
| CsvImport.RecordOf | index.php:310-335 | defines the inserted columns; ImportRowStep and ImportAppendsFresh state which address a record carries, and ValidFlagMeaning states its validity flag |
| CsvImport.ImportRow | index.php:301-348 | defines one pass of the loop body; ImportRowStep, IncompleteRowCounted, StoredAddressSkipped and ImportRowVerify state what it does |
| CsvImport.ImportRows | index.php:299-349 | defines the loop; ImportBounds, ImportCapped, CapReachedStops, ImportAppendsFresh, ImportRunsVerify and ImportCsv state its behaviour |
| CsvImport.VerifiedAddresses | index.php:311-321 | defines the addresses the loop hands to the verifier; ImportRunsVerify states that the upload is one run over them |
| CsvImport.ImportRowVerify | index.php:311-321 | one row calls the verifier exactly when both cells are set and the address is not stored, and takes over the cache and calls it leaves |
| CsvImport.RunCons | index.php:321 | a run over one address and then more is that call followed by the run from the cache it left |
| CsvImport.ImportRunsVerify | index.php:299-349 | the upload leaves the cache and call record of one run over the addresses it verifies |
| CsvImport.UploadProbesEachDomainOnce | index.php:172-223 | an upload runs the `checkdnsrr` MX check and the WHOIS lookup for a domain at most once and at most three `verificarSMTP` probes at it, and none of these for a domain cached at the start |
| CsvImport.Cell | index.php:308-309 | a missing or null cell reads as "" |
| CsvImport.InitialState | index.php:290-297 | both counters start at zero with nothing inserted |
| CsvImport.ImportRowStep | index.php:307-348 | one row adds at most one to `$countLote`; a row that does not count changes nothing; an insertion counts and appends a record for the row's new, non-empty address, which the table then holds |
| CsvImport.ImportBounds | index.php:296-348 | `$linhasImportadas <= $countLote <= $batchSize` is kept and both counters only grow |
| CsvImport.ImportCapped | index.php:296-305 | an upload inserts at most 2000 rows |
| CsvImport.CapReachedStops | index.php:301-305 | once the cap is reached the remaining rows are left untouched |
| CsvImport.StoredAddressSkipped | index.php:315-318 | a row whose address is stored is skipped without counting, consulting or inserting |
| CsvImport.IncompleteRowCounted | index.php:311-348 | a row with an empty CNPJ or e-mail is counted and nothing else happens |
| CsvImport.ImportAppendsFresh | index.php:315-345 | the inserted records extend the old ones, carry non-empty addresses absent when reached and stored afterwards, and are pairwise distinct |
| CsvImport.UploadInsertsNewAddresses | index.php:315-345 | from a fresh start, the count of insertions equals the records, and no address is inserted twice or was stored before |
| CsvImport.ImportCsv | index.php:290-349 | the imperative loop returns exactly the counters, stored set and records of `ImportRows`, and leaves the verifier's cache and call record as it does |
| CrossReference.MappingLayout | relacionador.php:97-128 | the mapping has six blocks of five e-mail columns, and no block's name column is searched as an e-mail column |
| CrossReference.CellAt | relacionador.php:148 | defines `$linha[$i]` with `isset` false as `None` (also relacionador.php:60, 144); NameMissing and Found state its use |
| CrossReference.Normalize | relacionador.php:61 | defines `strtolower(trim(...))` (also relacionador.php:149); NormalizeIdempotent and ValidSetNormalized state its meaning |
| CrossReference.DropHeader | relacionador.php:55 | drops the header row of a sheet (also relacionador.php:76); RelateOutcome states the headers never matter |
| CrossReference.ValidKey | relacionador.php:59-63 | defines the normalised key of one row; ValidSetComplete, ValidSetSound and ValidSetNormalized state its meaning |
| CrossReference.ValidSet | relacionador.php:58-65 | defines the set of valid addresses; ValidSetComplete, ValidSetSound and ValidSetNormalized state its meaning, and BuildValidSet computes it |
| CrossReference.ValidSetComplete | relacionador.php:58-65 | every trimmed, lower-cased, non-empty first cell is in the valid set |
| CrossReference.ValidSetSound | relacionador.php:58-65 | every member of the valid set comes from the first cell of some row |
| CrossReference.ValidSetNormalized | relacionador.php:61-63 | no member is empty and every member is trimmed and lower case |
| CrossReference.NormalizeIdempotent | relacionador.php:61 | normalising twice is normalising once |
| CrossReference.LowerKeepsTrim | relacionador.php:61 | lower-casing a trimmed string leaves it trimmed |
| CrossReference.BuildValidSet | relacionador.php:58-65 | the loop builds exactly the valid set |
| CrossReference.NameOf | relacionador.php:144 | defines the block's name cell; NameMissing and NameTrimmed state its meaning |
| CrossReference.NameMissing | relacionador.php:144 | a missing name cell gives the empty name |
| CrossReference.NameTrimmed | relacionador.php:144 | a name never carries surrounding blanks |
| CrossReference.ColumnEntries | relacionador.php:147-160 | defines a block's entries; ColumnComplete, ColumnOrigin and ColumnAppend state they are exactly its hits, in column order |
| CrossReference.MappingEntries | relacionador.php:142-161 | defines a row's entries; MappingComplete, MappingOrigin and MappingAppend state they are exactly its hits, in block order |
| CrossReference.JoinEntries | relacionador.php:138-162 | defines the joined list; JoinComplete, JoinOrigin, JoinSound and JoinAppend state it is exactly the hits, in row order, and JoinRows computes it |
| CrossReference.Found | relacionador.php:148-151 | a column yields only a non-empty address of the valid set |
| CrossReference.JoinPrefix | relacionador.php:138-162 | one more row appends that row's entries |
| CrossReference.JoinSnoc | relacionador.php:138-162 | appending a row appends that row's entries |
| CrossReference.JoinAppend | relacionador.php:138-162 | entries come in row order: two runs of rows give the first's entries then the second's |
| CrossReference.MappingPrefix | relacionador.php:142-161 | one more block appends that block's entries |
| CrossReference.MappingSnoc | relacionador.php:142-161 | appending a block appends that block's entries |
| CrossReference.MappingAppend | relacionador.php:142-161 | within a row, entries come in block order |
| CrossReference.ColumnAppend | relacionador.php:147-160 | within a block, entries come in column order |
| CrossReference.ColumnComplete | relacionador.php:147-160 | every hit of a block's columns is among its entries with the block's name |
| CrossReference.MappingComplete | relacionador.php:142-161 | every hit of a row under any block is among its entries with that block's name |
| CrossReference.JoinComplete | relacionador.php:138-162 | no hit of any row, block and column is lost |
| CrossReference.ColumnOrigin | relacionador.php:147-160 | each entry of a block comes from one of its columns and carries the block's name |
| CrossReference.MappingOrigin | relacionador.php:142-161 | each entry of a row comes from a column of some block and carries that block's name |
| CrossReference.JoinOrigin | relacionador.php:138-162 | each entry comes from a set, valid cell of some row and block, paired with its name: with JoinComplete, the entries are exactly the hits |
| CrossReference.JoinSound | relacionador.php:148-157 | every appended entry has a non-empty address of the valid set |
| CrossReference.JoinColumns | relacionador.php:147-160 | the column loop appends the block's entries and counts each one |
| CrossReference.JoinBlocks | relacionador.php:142-161 | the block loop appends the row's entries and counts each one |
| CrossReference.JoinRows | relacionador.php:135-162 | the row loop builds exactly the specified list, and `$debugCount` equals its length |
| CrossReference.EntryKey | relacionador.php:171 | defines the key `email bar nome`; FirstBar, SplitAtFirstBar, KeyInjective and KeyCollision state when it tells entries apart |
| CrossReference.Dedup | relacionador.php:169-173 | every listed key has a value; DedupWF, DedupCovers, DedupFromItems, DedupKeyOrder and DedupLastWins state the rest of its meaning |
| CrossReference.Deduplicated | relacionador.php:169-174 | defines the deduplicated list; DedupProperties and DedupDistinctUnchanged state its meaning, and DedupByKey computes it |
| CrossReference.DedupWF | relacionador.php:169-173 | the ordered map lists each key once, exactly its keys, each value under its own key, with no more keys than items |
| CrossReference.DedupCovers | relacionador.php:169-173 | every item's key is present, and the last item is the value of its key |
| CrossReference.DedupFromItems | relacionador.php:169-173 | every stored value is one of the items |
| CrossReference.DedupKeysFromItems | relacionador.php:169-173 | every listed key is the key of some item |
| CrossReference.DedupKeyOrder | relacionador.php:172 | keys are listed in order of first occurrence |
| CrossReference.DedupKeyOrderStep | relacionador.php:172 | one more item keeps the first-occurrence order |
| CrossReference.OrderStep | relacionador.php:172 | one more item keeps the first-occurrence order, stated over the map before it |
| CrossReference.OrderOneTriple | relacionador.php:172 | first-occurrence order for one triple of indices after one more item |
| CrossReference.DedupLastWins | relacionador.php:172 | the value kept under a key is the last item with that key |
| CrossReference.ValuesOf | relacionador.php:174 | `array_values` returns one value per key, in key order |
| CrossReference.DedupProperties | relacionador.php:169-176 | after dedup no two entries share a key, every input key is still present, every entry comes from the input, and the list never grows |
| CrossReference.DedupDistinctKeys | relacionador.php:169-173 | with distinct keys every item opens a new key in order and is its value |
| CrossReference.DistinctStep | relacionador.php:172 | an item with a new key opens its own key at the end and is stored under it |
| CrossReference.DedupDistinctUnchanged | relacionador.php:169-174 | a list with distinct keys comes out unchanged |
| CrossReference.FirstBar | relacionador.php:171 | in `a`, a bar, then `b`, the first bar is the glued one when `a` holds none |
| CrossReference.SplitAtFirstBar | relacionador.php:171 | glued strings are equal only when both parts are, if the first parts hold no bar |
| CrossReference.KeyInjective | relacionador.php:171 | for addresses without a bar, equal keys mean equal entries |
| CrossReference.KeyCollision | relacionador.php:171-172 | an address holding a bar can share a key with a different entry, and only the later one survives |
| CrossReference.DedupByKey | relacionador.php:169-174 | the two loops produce exactly the deduplicated list |
| CrossReference.Relate | relacionador.php:55-174 | the script drops both headers, builds the valid set, joins through the six blocks and deduplicates; the counter is the number of hits |
| CrossReference.RelateOutcome | relacionador.php:55-176 | the headers never matter, every exported address is valid, non-empty and normalised, and no two lines share a key |

## Left out

- Sockets and the SMTP and WHOIS dialogues (index.php:53-76, 101-113): replaced by oracles. The RCPT reply line is an oracle, and the reply-code rule is modelled over it.
- The WHOIS regular expression (index.php:115-119): only its optional-string result is an oracle.
- Egulias RFC validation, `checkdnsrr` and `getmxrr`: uninterpreted oracles.
- `time()`, `strtotime`, the floating-point division and `round` (index.php:209-212): one oracle from date to optional age. The model proves only that an age needs a date.
- `uniqid()` (index.php:87): an oracle per domain.
- PHP strings are byte strings, and the model's strings are sequences of characters. For the operations modelled here the two readings agree: `trim`'s default set and PHP 8.2 `strtolower` touch only ASCII, the `@` and bar splits look for one ASCII character, and `/\D/` without the `u` flag keeps the ASCII digits. No encoding is modelled.
- `getmxrr` and `fsockopen` inside `verificarSMTP` (index.php:48-58): `mxRecords` and `connects` are functions of the domain and host. The three probes of one miss therefore share one MX list and one connection result, while the source asks DNS and opens a socket for each probe, and these answers could differ between probes.
- Checks.FormatCnpj: the scientific-notation branch (`(float)` and `sprintf("%.0f")`, index.php:128-135) is an oracle, so this branch has no length bound.
- The PDO connection, `existeEmail`'s SQL, MySQL collation, and PDO exceptions raised by a failing statement: the database is a set of addresses plus an oracle that says whether an INSERT executes.
- The manual single-address form (index.php:238-279): it repeats one row of the upload. It is not modelled apart from the shared pieces (`Verify`, `IsValidRecord`, `FormatCnpj`).
- HTML output and messages.
- Spreadsheet I/O: `lerPlanilha` (relacionador.php:19-45), `fopen`/`fgetcsv` parsing, the 1000-byte line length, and the `fputcsv` export (relacionador.php:182-194). Rows arrive as sequences of optional cells.
- Non-string cell values from the spreadsheet reader, such as numbers and booleans: cells are strings or absent.
- Concurrency and timeouts (`set_time_limit`, `fsockopen`'s 10-second timeout).
