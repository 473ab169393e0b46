/** The CSV upload of index.php: each row `[CNPJ, EMAIL_01]` is checked
    against the stored addresses, verified, and inserted, until the batch
    cap of counted rows is reached. `ImportRows` is the specification of the
    loop and `ImportCsv` runs it against one `Verifier`. */
module CsvImport {
  import opened Wrappers
  import opened Php
  import opened Checks
  import opened Pipeline
  import opened Runs

  /** `$batchSize`: at most this many counted rows per upload. */
  const BATCH_SIZE: nat := 2000

  /** One line as `fgetcsv` returns it; a blank line is a single null. */
  type Row = seq<Option<string>>

  /** `$data[i] ?? ''`: a missing or null cell reads as the empty string. */
  function Cell(row: Row, i: nat): (r: string)
    ensures i < |row| && row[i].Some? ==> r == row[i].value
    ensures !(i < |row| && row[i].Some?) ==> r == ""
  {
    if i < |row| && row[i].Some? then row[i].value else ""
  }

  /** The columns of one INSERT into `emails`; the three flags are stored as
      1/0 and are kept here as booleans. */
  datatype StoredRecord = StoredRecord(
    cnpj: string,
    email: string,
    isValid: bool,
    roleBased: bool,
    catchAll: bool,
    creationDate: Option<string>,
    ageDays: Option<int>
  )

  /** What the upload depends on besides the file: the network oracles, the
      float conversion of `formatarCNPJ`, and whether the database executes
      an INSERT. */
  datatype Env = Env(net: Network, floatToPlain: string -> string, insertSucceeds: StoredRecord -> bool)

  /** The loop's state: the verifier's cache and call record, the addresses
      the table holds (what `existeEmail` sees), the rows inserted so far,
      `$linhasImportadas` and `$countLote`. */
  datatype ImportState = ImportState(
    cache: DomainCache,
    stored: set<string>,
    records: seq<StoredRecord>,
    imported: nat,
    countLote: nat,
    calls: seq<Call>
  )

  /** The record inserted for a verified address. */
  function RecordOf(cnpj: string, email: string, v: Verdict, env: Env): StoredRecord {
    StoredRecord(FormatCnpj(cnpj, env.floatToPlain), email, IsValidRecord(v), v.roleBased, v.catchAll,
                 v.creationDate, v.ageDays)
  }

  /** One pass of the loop body for a row read while under the cap: a row
      with an empty CNPJ or e-mail only counts; a stored address is skipped
      without counting (`continue`); any other address is verified, inserted
      when the database accepts it, and counted. */
  function ImportRow(st: ImportState, row: Row, from: string, roleList: seq<string>, env: Env): ImportState {
    var cnpj := Cell(row, 0);
    var email := Cell(row, 1);
    if Falsy(cnpj) || Falsy(email) then
      st.(countLote := st.countLote + 1)
    else if email in st.stored then
      st
    else
      var o := Verify(st.cache, email, from, roleList, env.net);
      var rec := RecordOf(cnpj, email, o.verdict, env);
      var ok := env.insertSucceeds(rec);
      ImportState(
        o.cache,
        if ok then st.stored + {email} else st.stored,
        if ok then st.records + [rec] else st.records,
        if ok then st.imported + 1 else st.imported,
        st.countLote + 1,
        st.calls + o.calls)
  }

  /** The loop over the remaining rows: it stops at the end of the file or
      at the first row read once `$countLote` has reached the cap. */
  function ImportRows(st: ImportState, rows: seq<Row>, from: string, roleList: seq<string>, env: Env): ImportState
    decreases |rows|
  {
    if rows == [] || st.countLote >= BATCH_SIZE then st
    else ImportRows(ImportRow(st, rows[0], from, roleList, env), rows[1..], from, roleList, env)
  }

  /** The state an upload starts from: the cache of the request, and the
      addresses already in the table. */
  function InitialState(cache: DomainCache, stored: set<string>, calls: seq<Call>): (st: ImportState)
    ensures st.imported == 0 && st.countLote == 0 && st.records == []
  {
    ImportState(cache, stored, [], 0, 0, calls)
  }

  /** One row: the counter grows by at most one, an insertion always counts,
      and an inserted record is the row's new, non-empty address, which the
      table then holds. */
  lemma ImportRowStep(st: ImportState, row: Row, from: string, roleList: seq<string>, env: Env)
    ensures var n := ImportRow(st, row, from, roleList, env);
            && (n.countLote == st.countLote || n.countLote == st.countLote + 1)
            && (n.countLote == st.countLote ==> n == st)
            && st.stored <= n.stored
            && if n.imported == st.imported then
                 n.records == st.records && n.stored == st.stored
               else
                 && n.imported == st.imported + 1 && n.countLote == st.countLote + 1
                 && |n.records| == |st.records| + 1 && n.records[..|st.records|] == st.records
                 && n.records[|st.records|].email == Cell(row, 1)
                 && !Falsy(Cell(row, 1)) && Cell(row, 1) !in st.stored
                 && n.stored == st.stored + {Cell(row, 1)}
  {
    var email := Cell(row, 1);
    var n := ImportRow(st, row, from, roleList, env);
    if !Falsy(Cell(row, 0)) && !Falsy(email) && email !in st.stored && n.imported != st.imported {
      assert n.records == st.records + [n.records[|st.records|]];
    }
  }

  /** `$linhasImportadas <= $countLote <= $batchSize` holds throughout, and
      neither counter ever decreases. */
  lemma {:induction false} ImportBounds(st: ImportState, rows: seq<Row>, from: string, roleList: seq<string>, env: Env)
    requires st.imported <= st.countLote <= BATCH_SIZE
    ensures var r := ImportRows(st, rows, from, roleList, env);
            && r.imported <= r.countLote <= BATCH_SIZE
            && st.countLote <= r.countLote
            && st.imported <= r.imported
            && r.imported - st.imported <= r.countLote - st.countLote
    decreases |rows|
  {
    if rows != [] && st.countLote < BATCH_SIZE {
      var n := ImportRow(st, rows[0], from, roleList, env);
      ImportRowStep(st, rows[0], from, roleList, env);
      ImportBounds(n, rows[1..], from, roleList, env);
    }
  }

  /** An upload inserts at most `$batchSize` rows. */
  lemma ImportCapped(cache: DomainCache, stored: set<string>, calls: seq<Call>, rows: seq<Row>, from: string, roleList: seq<string>, env: Env)
    ensures ImportRows(InitialState(cache, stored, calls), rows, from, roleList, env).imported <= BATCH_SIZE
  {
    ImportBounds(InitialState(cache, stored, calls), rows, from, roleList, env);
  }

  /** Once the cap is reached the remaining rows are left untouched. */
  lemma CapReachedStops(st: ImportState, rows: seq<Row>, from: string, roleList: seq<string>, env: Env)
    requires st.countLote >= BATCH_SIZE
    ensures ImportRows(st, rows, from, roleList, env) == st
  {
  }

  /** A row whose address is already stored is skipped outright: it does
      not count toward the cap, consults no oracle and inserts nothing. */
  lemma StoredAddressSkipped(st: ImportState, row: Row, rest: seq<Row>, from: string, roleList: seq<string>, env: Env)
    requires !Falsy(Cell(row, 0)) && !Falsy(Cell(row, 1)) && Cell(row, 1) in st.stored
    ensures ImportRows(st, [row] + rest, from, roleList, env) == ImportRows(st, rest, from, roleList, env)
  {
    assert ([row] + rest)[1..] == rest;
  }

  /** A row with an empty (or "0") CNPJ or e-mail is read and counted, and
      nothing else happens. */
  lemma IncompleteRowCounted(st: ImportState, row: Row, from: string, roleList: seq<string>, env: Env)
    requires Falsy(Cell(row, 0)) || Falsy(Cell(row, 1))
    ensures ImportRow(st, row, from, roleList, env) == st.(countLote := st.countLote + 1)
  {
  }

  /** What the rows inserted from `st` on have in common: earlier records are
      kept, each new record carries a non-empty address that was not stored
      when the loop reached it and that the table holds afterwards, and no two
      new records share an address. */
  ghost predicate AppendsFresh(st: ImportState, r: ImportState) {
    && st.stored <= r.stored
    && |st.records| <= |r.records| && r.records[..|st.records|] == st.records
    && r.imported - st.imported == |r.records| - |st.records|
    && (forall k :: |st.records| <= k < |r.records| ==>
          && !Falsy(r.records[k].email)
          && r.records[k].email !in st.stored
          && r.records[k].email in r.stored)
    && (forall k1, k2 :: |st.records| <= k1 < k2 < |r.records| ==> r.records[k1].email != r.records[k2].email)
  }

  /** The upload never inserts an address twice, nor one the table already
      held. */
  lemma {:induction false} ImportAppendsFresh(st: ImportState, rows: seq<Row>, from: string, roleList: seq<string>, env: Env)
    requires st.imported <= st.countLote
    ensures AppendsFresh(st, ImportRows(st, rows, from, roleList, env))
    decreases |rows|
  {
    if rows != [] && st.countLote < BATCH_SIZE {
      var n := ImportRow(st, rows[0], from, roleList, env);
      var r := ImportRows(n, rows[1..], from, roleList, env);
      ImportRowStep(st, rows[0], from, roleList, env);
      ImportAppendsFresh(n, rows[1..], from, roleList, env);
      if n.imported != st.imported {
        assert r.records[..|n.records|][..|st.records|] == r.records[..|st.records|];
        assert r.records[|st.records|] == n.records[|st.records|];
      }
    }
  }

  /** The upload from a fresh start: every inserted address is distinct and
      was absent from the table. */
  lemma UploadInsertsNewAddresses(cache: DomainCache, stored: set<string>, calls: seq<Call>, rows: seq<Row>, from: string, roleList: seq<string>, env: Env)
    ensures var r := ImportRows(InitialState(cache, stored, calls), rows, from, roleList, env);
            && r.imported == |r.records|
            && (forall k :: 0 <= k < |r.records| ==> r.records[k].email !in stored && r.records[k].email in r.stored)
            && (forall k1, k2 :: 0 <= k1 < k2 < |r.records| ==> r.records[k1].email != r.records[k2].email)
  {
    ImportAppendsFresh(InitialState(cache, stored, calls), rows, from, roleList, env);
  }

  /** The addresses the loop hands to `validarEmailDetalhado`, in order:
      those of the rows read under the cap whose CNPJ and e-mail are set and
      whose address was not stored when the row was reached. */
  function VerifiedAddresses(st: ImportState, rows: seq<Row>, from: string, roleList: seq<string>, env: Env): seq<string>
    decreases |rows|
  {
    if rows == [] || st.countLote >= BATCH_SIZE then []
    else
      var row := rows[0];
      var n := ImportRow(st, row, from, roleList, env);
      (if !Falsy(Cell(row, 0)) && !Falsy(Cell(row, 1)) && Cell(row, 1) !in st.stored then [Cell(row, 1)] else [])
        + VerifiedAddresses(n, rows[1..], from, roleList, env)
  }

  /** As far as the verifier is concerned, an upload is one run over the
      addresses it verifies: it leaves the same cache and the same calls. */
  lemma {:induction false} ImportRunsVerify(st: ImportState, rows: seq<Row>, from: string, roleList: seq<string>, env: Env)
    ensures var r := ImportRows(st, rows, from, roleList, env);
            var run := RunAll(st.cache, VerifiedAddresses(st, rows, from, roleList, env), from, roleList, env.net);
            r.cache == run.cache && r.calls == st.calls + run.calls
    decreases |rows|
  {
    if rows != [] && st.countLote < BATCH_SIZE {
      var row := rows[0];
      var n := ImportRow(st, row, from, roleList, env);
      var rest := VerifiedAddresses(n, rows[1..], from, roleList, env);
      ImportRunsVerify(n, rows[1..], from, roleList, env);
      ImportRowVerify(st, row, from, roleList, env);
      if !Falsy(Cell(row, 0)) && !Falsy(Cell(row, 1)) && Cell(row, 1) !in st.stored {
        RunCons(st.calls, st.cache, Cell(row, 1), rest, from, roleList, env.net);
      } else {
        assert [] + rest == rest;
      }
    }
  }

  /** One row hands its address to the verifier exactly when the loop body
      reaches the call, and takes over the cache and calls it leaves. */
  lemma ImportRowVerify(st: ImportState, row: Row, from: string, roleList: seq<string>, env: Env)
    ensures var n := ImportRow(st, row, from, roleList, env);
            var o := Verify(st.cache, Cell(row, 1), from, roleList, env.net);
            if !Falsy(Cell(row, 0)) && !Falsy(Cell(row, 1)) && Cell(row, 1) !in st.stored
            then n.cache == o.cache && n.calls == st.calls + o.calls
            else n.cache == st.cache && n.calls == st.calls
  {
  }

  /** A run over `[e] + rest` is the call for `e` followed by the run over
      `rest` from the cache it left. */
  lemma RunCons(prior: seq<Call>, cache: DomainCache, e: string, rest: seq<string>, from: string, roleList: seq<string>, net: Network)
    ensures var o := Verify(cache, e, from, roleList, net);
            var tail := RunAll(o.cache, rest, from, roleList, net);
            && RunAll(cache, [e] + rest, from, roleList, net).cache == tail.cache
            && prior + RunAll(cache, [e] + rest, from, roleList, net).calls == (prior + o.calls) + tail.calls
  {
    assert ([e] + rest)[1..] == rest;
  }

  /** An upload from a fresh call record runs the `checkdnsrr` MX check and
      the WHOIS lookup for a domain at most once, runs at most three
      `verificarSMTP` probes at it, and does none of these for a domain the
      cache already held. */
  lemma UploadProbesEachDomainOnce(cache: DomainCache, stored: set<string>, rows: seq<Row>, from: string, roleList: seq<string>, env: Env, d: string)
    ensures var r := ImportRows(InitialState(cache, stored, []), rows, from, roleList, env);
            && CountCalls(r.calls, MxCall(d)) <= (if d in cache then 0 else 1)
            && CountCalls(r.calls, WhoisCall(d)) <= (if d in cache then 0 else 1)
            && CountSmtp(r.calls, d) <= (if d in cache then 0 else 3)
  {
    var st := InitialState(cache, stored, []);
    var emails := VerifiedAddresses(st, rows, from, roleList, env);
    ImportRunsVerify(st, rows, from, roleList, env);
    assert [] + RunAll(cache, emails, from, roleList, env.net).calls == RunAll(cache, emails, from, roleList, env.net).calls;
    RunProbesEachDomainOnce(cache, emails, from, roleList, env.net, d);
    RunSmtpPerDomain(cache, emails, from, roleList, env.net, d);
  }

  /** The CSV loop (lines 290-349) run by one verifier: the shared cache of
      `validarEmailDetalhado` persists from row to row. */
  method ImportCsv(v: Verifier, stored0: set<string>, rows: seq<Row>, from: string, roleList: seq<string>, env: Env)
    returns (linhasImportadas: nat, countLote: nat, stored: set<string>, records: seq<StoredRecord>)
    requires v.Valid()
    modifies v
    ensures v.Valid()
    ensures var r := ImportRows(ImportState(old(v.domainCache), stored0, [], 0, 0, old(v.calls)), rows, from, roleList, env);
            && linhasImportadas == r.imported && countLote == r.countLote
            && stored == r.stored && records == r.records
            && v.domainCache == r.cache && v.calls == r.calls
  {
    ghost var goal := ImportRows(ImportState(v.domainCache, stored0, [], 0, 0, v.calls), rows, from, roleList, env);
    linhasImportadas, countLote, stored, records := 0, 0, stored0, [];
    for i := 0 to |rows|
      invariant v.Valid()
      invariant ImportRows(ImportState(v.domainCache, stored, records, linhasImportadas, countLote, v.calls),
                           rows[i..], from, roleList, env) == goal
    {
      ghost var cur := ImportState(v.domainCache, stored, records, linhasImportadas, countLote, v.calls);
      assert rows[i..][1..] == rows[i + 1..];
      if countLote >= BATCH_SIZE {
        break;
      }
      var data := rows[i];
      var cnpjCsv := Cell(data, 0);
      var emailCsv := Cell(data, 1);
      if !Falsy(cnpjCsv) && !Falsy(emailCsv) {
        if emailCsv in stored {
          continue;
        }
        var resultado := v.ValidateDetailed(emailCsv, from, roleList, env.net);
        var rec := RecordOf(cnpjCsv, emailCsv, resultado, env);
        if env.insertSucceeds(rec) {
          stored := stored + {emailCsv};
          records := records + [rec];
          linhasImportadas := linhasImportadas + 1;
        }
      }
      countLote := countLote + 1;
      assert ImportState(v.domainCache, stored, records, linhasImportadas, countLote, v.calls) ==
             ImportRow(cur, rows[i], from, roleList, env);
    }
  }
}
