/** relacionador.php: the sheet of valid addresses becomes a set, each row
    of the second sheet is searched column by column for those addresses,
    and the hits, paired with the name of their block, are deduplicated by
    the key "email|nome". Reading and writing the sheets is left out: a
    sheet arrives as rows of optional cells (an absent or null cell is
    `None`). The spec functions fold from the back, the way the loops
    build their results. */
module CrossReference {
  import opened Wrappers
  import opened Php

  type Cells = seq<Option<string>>

  /** One line of `$listaEmails`. */
  datatype Entry = Entry(email: string, nome: string)

  /** One block of `$mapeamento`: the column of the name and the columns of
      its e-mails. */
  datatype Mapping = Mapping(nomeIndex: nat, emailIndexes: seq<nat>)

  /** The six blocks: the company (lines 99-102) and five partners. */
  const MAPEAMENTO: seq<Mapping> := [
    Mapping(2, [42, 43, 44, 45, 46]),
    Mapping(60, [95, 96, 97, 98, 99]),
    Mapping(101, [136, 137, 138, 139, 140]),
    Mapping(142, [177, 178, 179, 180, 181]),
    Mapping(183, [218, 219, 220, 221, 222]),
    Mapping(224, [259, 260, 261, 262, 263])
  ]

  /** Six blocks of five e-mail columns each, and no block's name column is
      searched as an e-mail column of any block. */
  lemma MappingLayout()
    ensures |MAPEAMENTO| == 6
    ensures forall i :: 0 <= i < |MAPEAMENTO| ==> |MAPEAMENTO[i].emailIndexes| == 5
    ensures forall i, j, k :: 0 <= i < |MAPEAMENTO| && 0 <= j < |MAPEAMENTO| && 0 <= k < |MAPEAMENTO[j].emailIndexes| ==>
              MAPEAMENTO[i].nomeIndex != MAPEAMENTO[j].emailIndexes[k]
  {
  }

  /** `array_shift`: the first row is the header; an empty sheet stays empty. */
  function DropHeader(rows: seq<Cells>): seq<Cells> {
    if rows == [] then [] else rows[1..]
  }

  /** `$linha[$i]`, `None` where `isset` is false. */
  function CellAt(row: Cells, i: nat): Option<string> {
    if i < |row| then row[i] else None
  }

  /** `strtolower(trim(...))`. */
  function Normalize(s: string): string {
    ToLower(Trim(s))
  }

  /** The clean-ups the join applies to a cell: one for a name and one for
      an address. PHP applies `trim` and `strtolower(trim(...))`; the join is
      stated for any pair so that its structure is proved apart from them. */
  datatype Clean = Clean(name: string -> string, email: string -> string)

  /** What lines 144 and 149 apply. */
  const PHP_CLEAN: Clean := Clean(Trim, Normalize)

  /** Lines 60-64: the key a row of the valid sheet contributes, if any. */
  function ValidKey(row: Cells): Option<string> {
    var cell := CellAt(row, 0);
    if cell.Some? && Normalize(cell.value) != "" then Some(Normalize(cell.value)) else None
  }

  /** The keys of `$validos` after the first `rows` of the valid sheet. */
  function ValidSet(rows: seq<Cells>): set<string>
    decreases |rows|
  {
    if rows == [] then {}
    else
      var front := ValidSet(rows[..|rows| - 1]);
      match ValidKey(rows[|rows| - 1])
      case None => front
      case Some(e) => front + {e}
  }

  /** Every trimmed, lower-cased, non-empty first cell is in `$validos`. */
  lemma {:induction false} ValidSetComplete(rows: seq<Cells>, k: nat)
    requires k < |rows| && ValidKey(rows[k]).Some?
    ensures ValidKey(rows[k]).value in ValidSet(rows)
    decreases |rows|
  {
    if k < |rows| - 1 {
      assert rows[..|rows| - 1][k] == rows[k];
      ValidSetComplete(rows[..|rows| - 1], k);
    }
  }

  /** Nothing else is in `$validos`. */
  lemma {:induction false} ValidSetSound(rows: seq<Cells>, e: string)
    requires e in ValidSet(rows)
    ensures exists k :: 0 <= k < |rows| && ValidKey(rows[k]) == Some(e)
    decreases |rows|
  {
    var front := rows[..|rows| - 1];
    if e in ValidSet(front) {
      ValidSetSound(front, e);
      var k :| 0 <= k < |front| && ValidKey(front[k]) == Some(e);
      assert rows[k] == front[k];
    } else {
      assert ValidKey(rows[|rows| - 1]) == Some(e);
    }
  }

  /** No member of the valid set is empty, and every member is in normal
      form (trimmed and lower case). */
  lemma ValidSetNormalized(rows: seq<Cells>, e: string)
    requires e in ValidSet(rows)
    ensures e != "" && Normalize(e) == e
  {
    ValidSetSound(rows, e);
    var k :| 0 <= k < |rows| && ValidKey(rows[k]) == Some(e);
    var s := CellAt(rows[k], 0).value;
    NormalizeIdempotent(s);
  }

  /** Normalising twice changes nothing. */
  lemma NormalizeIdempotent(s: string)
    ensures Normalize(Normalize(s)) == Normalize(s)
  {
    var t := Trim(s);
    TrimIdempotent(s);
    LowerKeepsTrim(t);
    ToLowerIdempotent(t);
  }

  /** Lower-casing a trimmed string leaves it trimmed: the trim characters
      are not letters. */
  lemma LowerKeepsTrim(t: string)
    requires Trim(t) == t
    ensures Trim(ToLower(t)) == ToLower(t)
  {
    var l := ToLower(t);
    if l != [] {
      assert !IsTrimChar(t[0]) && !IsTrimChar(t[|t| - 1]);
      assert !IsTrimChar(l[0]) && !IsTrimChar(l[|l| - 1]);
    }
  }

  /** Lines 58-65: the loop that fills `$validos`. */
  method BuildValidSet(rows: seq<Cells>) returns (validos: set<string>)
    ensures validos == ValidSet(rows)
  {
    validos := {};
    for i := 0 to |rows|
      invariant validos == ValidSet(rows[..i])
    {
      assert rows[..i + 1][..i] == rows[..i];
      var linhaValida := rows[i];
      if CellAt(linhaValida, 0).None? {
        continue;
      }
      var emailValido := Normalize(CellAt(linhaValida, 0).value);
      if emailValido != "" {
        validos := validos + {emailValido};
      }
    }
    assert rows[..|rows|] == rows;
  }

  /** Line 144: the name of a block, trimmed, or "" when its cell is missing. */
  function NameOf(row: Cells, nomeIndex: nat, clean: Clean): string {
    match CellAt(row, nomeIndex)
    case None => ""
    case Some(s) => clean.name(s)
  }

  /** A block whose name cell is missing gets the empty name. */
  lemma NameMissing(row: Cells, nomeIndex: nat)
    requires CellAt(row, nomeIndex).None?
    ensures NameOf(row, nomeIndex, PHP_CLEAN) == ""
  {
  }

  /** A name never carries surrounding blanks. */
  lemma NameTrimmed(row: Cells, nomeIndex: nat)
    ensures Trim(NameOf(row, nomeIndex, PHP_CLEAN)) == NameOf(row, nomeIndex, PHP_CLEAN)
  {
    if CellAt(row, nomeIndex).Some? {
      TrimmedCellName(row, nomeIndex, CellAt(row, nomeIndex).value);
    } else {
      TrimEmpty();
    }
  }

  lemma TrimmedCellName(row: Cells, nomeIndex: nat, s: string)
    requires CellAt(row, nomeIndex) == Some(s)
    ensures Trim(NameOf(row, nomeIndex, PHP_CLEAN)) == NameOf(row, nomeIndex, PHP_CLEAN)
  {
    TrimIdempotent(s);
  }

  lemma TrimEmpty()
    ensures Trim([]) == []
  {
  }

  /** Lines 148-151: the address a column yields, when its cell is set and
      its normal form is non-empty and valid. */
  function Found(row: Cells, col: nat, validos: set<string>, clean: Clean): (r: Option<string>)
    ensures r.Some? ==> r.value != "" && r.value in validos
  {
    var cell := CellAt(row, col);
    if cell.Some? && clean.email(cell.value) != "" && clean.email(cell.value) in validos
    then Some(clean.email(cell.value)) else None
  }

  /** The entries one block's columns contribute, in column order. */
  function ColumnEntries(row: Cells, cols: seq<nat>, nome: string, validos: set<string>, clean: Clean): seq<Entry>
    decreases |cols|
  {
    if cols == [] then []
    else
      var front := ColumnEntries(row, cols[..|cols| - 1], nome, validos, clean);
      match Found(row, cols[|cols| - 1], validos, clean)
      case None => front
      case Some(e) => front + [Entry(e, nome)]
  }

  /** The entries of one row, block after block. */
  function MappingEntries(row: Cells, maps: seq<Mapping>, validos: set<string>, clean: Clean): seq<Entry>
    decreases |maps|
  {
    if maps == [] then []
    else
      var m := maps[|maps| - 1];
      MappingEntries(row, maps[..|maps| - 1], validos, clean) +
        ColumnEntries(row, m.emailIndexes, NameOf(row, m.nomeIndex, clean), validos, clean)
  }

  /** `$listaEmails` after the first `rows` of the second sheet. */
  function JoinEntries(rows: seq<Cells>, maps: seq<Mapping>, validos: set<string>, clean: Clean): seq<Entry>
    decreases |rows|
  {
    if rows == [] then []
    else JoinEntries(rows[..|rows| - 1], maps, validos, clean) + MappingEntries(rows[|rows| - 1], maps, validos, clean)
  }

  /** The rows up to and including `k`: those before it, then row `k`. */
  lemma JoinPrefix(rows: seq<Cells>, k: nat, maps: seq<Mapping>, validos: set<string>, clean: Clean)
    requires k < |rows|
    ensures JoinEntries(rows[..k + 1], maps, validos, clean) ==
              JoinEntries(rows[..k], maps, validos, clean) + MappingEntries(rows[k], maps, validos, clean)
  {
    assert rows[..k + 1][..k] == rows[..k];
  }

  /** Entries come in row order: the list for two runs of rows is the list
      of the first followed by that of the second. */
  lemma {:induction false} JoinAppend(rows1: seq<Cells>, rows2: seq<Cells>, maps: seq<Mapping>, validos: set<string>, clean: Clean)
    ensures JoinEntries(rows1 + rows2, maps, validos, clean) == JoinEntries(rows1, maps, validos, clean) + JoinEntries(rows2, maps, validos, clean)
    decreases |rows2|
  {
    if rows2 == [] {
      assert rows1 + rows2 == rows1;
    } else {
      var front, last := rows2[..|rows2| - 1], rows2[|rows2| - 1];
      JoinAppend(rows1, front, maps, validos, clean);
      assert rows2 == front + [last];
      assert rows1 + rows2 == (rows1 + front) + [last];
      JoinSnoc(rows1 + front, last, maps, validos, clean);
      JoinSnoc(front, last, maps, validos, clean);
      ConcatRegroup(JoinEntries(rows1 + front, maps, validos, clean), MappingEntries(last, maps, validos, clean),
                    JoinEntries(rows1, maps, validos, clean), JoinEntries(front, maps, validos, clean));
    }
  }

  /** One more row appends that row's entries. */
  lemma JoinSnoc(rows: seq<Cells>, row: Cells, maps: seq<Mapping>, validos: set<string>, clean: Clean)
    ensures JoinEntries(rows + [row], maps, validos, clean) ==
              JoinEntries(rows, maps, validos, clean) + MappingEntries(row, maps, validos, clean)
  {
    assert (rows + [row])[..|rows|] == rows;
  }

  /** The regrouping behind the append lemmas: `(a + f) + m` is `a + (f + m)`. */
  lemma ConcatRegroup(init: seq<Entry>, m: seq<Entry>, a: seq<Entry>, f: seq<Entry>)
    requires init == a + f
    ensures init + m == a + (f + m)
  {
  }

  /** The blocks up to and including `m`: those before it, then block `m`. */
  lemma MappingPrefix(row: Cells, maps: seq<Mapping>, m: nat, validos: set<string>, clean: Clean)
    requires m < |maps|
    ensures MappingEntries(row, maps[..m + 1], validos, clean) ==
              MappingEntries(row, maps[..m], validos, clean) +
              ColumnEntries(row, maps[m].emailIndexes, NameOf(row, maps[m].nomeIndex, clean), validos, clean)
  {
    assert maps[..m + 1][..m] == maps[..m];
  }

  /** Within a row, entries come in block order. */
  lemma {:induction false} MappingAppend(row: Cells, maps1: seq<Mapping>, maps2: seq<Mapping>, validos: set<string>, clean: Clean)
    ensures MappingEntries(row, maps1 + maps2, validos, clean) == MappingEntries(row, maps1, validos, clean) + MappingEntries(row, maps2, validos, clean)
    decreases |maps2|
  {
    if maps2 == [] {
      assert maps1 + maps2 == maps1;
    } else {
      var front, last := maps2[..|maps2| - 1], maps2[|maps2| - 1];
      MappingAppend(row, maps1, front, validos, clean);
      assert maps2 == front + [last];
      assert maps1 + maps2 == (maps1 + front) + [last];
      MappingSnoc(row, maps1 + front, last, validos, clean);
      MappingSnoc(row, front, last, validos, clean);
      ConcatRegroup(MappingEntries(row, maps1 + front, validos, clean),
                    ColumnEntries(row, last.emailIndexes, NameOf(row, last.nomeIndex, clean), validos, clean),
                    MappingEntries(row, maps1, validos, clean), MappingEntries(row, front, validos, clean));
    }
  }

  /** One more block appends that block's entries. */
  lemma MappingSnoc(row: Cells, maps: seq<Mapping>, m: Mapping, validos: set<string>, clean: Clean)
    ensures MappingEntries(row, maps + [m], validos, clean) ==
              MappingEntries(row, maps, validos, clean) +
              ColumnEntries(row, m.emailIndexes, NameOf(row, m.nomeIndex, clean), validos, clean)
  {
    assert (maps + [m])[..|maps|] == maps;
  }

  /** Within a block, entries come in column order. */
  lemma {:induction false} ColumnAppend(row: Cells, cols1: seq<nat>, cols2: seq<nat>, nome: string, validos: set<string>, clean: Clean)
    ensures ColumnEntries(row, cols1 + cols2, nome, validos, clean) == ColumnEntries(row, cols1, nome, validos, clean) + ColumnEntries(row, cols2, nome, validos, clean)
    decreases |cols2|
  {
    if cols2 == [] {
      assert cols1 + cols2 == cols1;
    } else {
      assert (cols1 + cols2)[..|cols1 + cols2| - 1] == cols1 + cols2[..|cols2| - 1];
      ColumnAppend(row, cols1, cols2[..|cols2| - 1], nome, validos, clean);
    }
  }

  /** Every hit of a block's columns is in that block's entries. */
  lemma {:induction false} ColumnComplete(row: Cells, cols: seq<nat>, nome: string, validos: set<string>, clean: Clean, c: nat)
    requires c < |cols| && Found(row, cols[c], validos, clean).Some?
    ensures Entry(Found(row, cols[c], validos, clean).value, nome) in ColumnEntries(row, cols, nome, validos, clean)
    decreases |cols|
  {
    if c < |cols| - 1 {
      assert cols[..|cols| - 1][c] == cols[c];
      ColumnComplete(row, cols[..|cols| - 1], nome, validos, clean, c);
    }
  }

  /** Every hit of a row, under any block, is in the row's entries with the
      block's name. */
  lemma {:induction false} MappingComplete(row: Cells, maps: seq<Mapping>, validos: set<string>, clean: Clean, m: nat, c: nat)
    requires m < |maps| && c < |maps[m].emailIndexes|
    requires Found(row, maps[m].emailIndexes[c], validos, clean).Some?
    ensures Entry(Found(row, maps[m].emailIndexes[c], validos, clean).value, NameOf(row, maps[m].nomeIndex, clean))
              in MappingEntries(row, maps, validos, clean)
    decreases |maps|
  {
    if m < |maps| - 1 {
      assert maps[..|maps| - 1][m] == maps[m];
      MappingComplete(row, maps[..|maps| - 1], validos, clean, m, c);
    } else {
      ColumnComplete(row, maps[m].emailIndexes, NameOf(row, maps[m].nomeIndex, clean), validos, clean, c);
    }
  }

  /** No hit is lost: every set, valid, non-empty e-mail cell of every row
      yields an entry pairing its normal form with its block's name. */
  lemma {:induction false} JoinComplete(rows: seq<Cells>, maps: seq<Mapping>, validos: set<string>, clean: Clean, k: nat, m: nat, c: nat)
    requires k < |rows| && m < |maps| && c < |maps[m].emailIndexes|
    requires Found(rows[k], maps[m].emailIndexes[c], validos, clean).Some?
    ensures Entry(Found(rows[k], maps[m].emailIndexes[c], validos, clean).value, NameOf(rows[k], maps[m].nomeIndex, clean))
              in JoinEntries(rows, maps, validos, clean)
    decreases |rows|
  {
    if k < |rows| - 1 {
      assert rows[..|rows| - 1][k] == rows[k];
      JoinComplete(rows[..|rows| - 1], maps, validos, clean, k, m, c);
    } else {
      MappingComplete(rows[k], maps, validos, clean, m, c);
    }
  }

  /** Each block's entry comes from one of its columns. */
  lemma {:induction false} ColumnOrigin(row: Cells, cols: seq<nat>, nome: string, validos: set<string>, clean: Clean, i: nat)
    requires i < |ColumnEntries(row, cols, nome, validos, clean)|
    ensures ColumnEntries(row, cols, nome, validos, clean)[i].nome == nome
    ensures exists c :: 0 <= c < |cols| && Found(row, cols[c], validos, clean) == Some(ColumnEntries(row, cols, nome, validos, clean)[i].email)
    decreases |cols|
  {
    var front := cols[..|cols| - 1];
    var r := ColumnEntries(row, cols, nome, validos, clean);
    var f := ColumnEntries(row, front, nome, validos, clean);
    if i < |f| {
      ColumnOrigin(row, front, nome, validos, clean, i);
      var c :| 0 <= c < |front| && Found(row, front[c], validos, clean) == Some(f[i].email);
      assert cols[c] == front[c];
      assert r[i] == f[i];
    } else {
      assert Found(row, cols[|cols| - 1], validos, clean) == Some(r[i].email);
    }
  }

  /** Each entry of a row comes from one of its blocks: a column of that
      block yields its address, and the block's name is its name. */
  lemma {:induction false} MappingOrigin(row: Cells, maps: seq<Mapping>, validos: set<string>, clean: Clean, i: nat)
    requires i < |MappingEntries(row, maps, validos, clean)|
    ensures var e := MappingEntries(row, maps, validos, clean)[i];
            exists m, c :: 0 <= m < |maps| && 0 <= c < |maps[m].emailIndexes| &&
              Found(row, maps[m].emailIndexes[c], validos, clean) == Some(e.email) &&
              e.nome == NameOf(row, maps[m].nomeIndex, clean)
    decreases |maps|
  {
    var front := maps[..|maps| - 1];
    var last := maps[|maps| - 1];
    var nome := NameOf(row, last.nomeIndex, clean);
    var f := MappingEntries(row, front, validos, clean);
    var e := MappingEntries(row, maps, validos, clean)[i];
    if i < |f| {
      MappingOrigin(row, front, validos, clean, i);
      var m, c :| 0 <= m < |front| && 0 <= c < |front[m].emailIndexes| &&
        Found(row, front[m].emailIndexes[c], validos, clean) == Some(f[i].email) &&
        f[i].nome == NameOf(row, front[m].nomeIndex, clean);
      assert maps[m] == front[m];
    } else {
      var cs := ColumnEntries(row, last.emailIndexes, nome, validos, clean);
      assert e == cs[i - |f|];
      ColumnOrigin(row, last.emailIndexes, nome, validos, clean, i - |f|);
      var c :| 0 <= c < |last.emailIndexes| && Found(row, last.emailIndexes[c], validos, clean) == Some(cs[i - |f|].email);
      assert maps[|maps| - 1] == last;
    }
  }

  /** Each entry of the list comes from a set, valid cell of some row under
      some block, paired with that block's name: with `JoinComplete`, the
      entries are exactly the hits. */
  lemma {:induction false} JoinOrigin(rows: seq<Cells>, maps: seq<Mapping>, validos: set<string>, clean: Clean, i: nat)
    requires i < |JoinEntries(rows, maps, validos, clean)|
    ensures var e := JoinEntries(rows, maps, validos, clean)[i];
            exists k, m, c :: 0 <= k < |rows| && 0 <= m < |maps| && 0 <= c < |maps[m].emailIndexes| &&
              Found(rows[k], maps[m].emailIndexes[c], validos, clean) == Some(e.email) &&
              e.nome == NameOf(rows[k], maps[m].nomeIndex, clean)
    decreases |rows|
  {
    var front := rows[..|rows| - 1];
    var last := rows[|rows| - 1];
    var f := JoinEntries(front, maps, validos, clean);
    var e := JoinEntries(rows, maps, validos, clean)[i];
    if i < |f| {
      JoinOrigin(front, maps, validos, clean, i);
      var k, m, c :| 0 <= k < |front| && 0 <= m < |maps| && 0 <= c < |maps[m].emailIndexes| &&
        Found(front[k], maps[m].emailIndexes[c], validos, clean) == Some(f[i].email) &&
        f[i].nome == NameOf(front[k], maps[m].nomeIndex, clean);
      assert rows[k] == front[k];
    } else {
      var ms := MappingEntries(last, maps, validos, clean);
      assert e == ms[i - |f|];
      MappingOrigin(last, maps, validos, clean, i - |f|);
      assert rows[|rows| - 1] == last;
    }
  }

  /** Every appended entry has a non-empty address from the valid set. */
  lemma JoinSound(rows: seq<Cells>, maps: seq<Mapping>, validos: set<string>, clean: Clean)
    ensures forall i :: 0 <= i < |JoinEntries(rows, maps, validos, clean)| ==>
              JoinEntries(rows, maps, validos, clean)[i].email != "" &&
              JoinEntries(rows, maps, validos, clean)[i].email in validos
  {
    forall i | 0 <= i < |JoinEntries(rows, maps, validos, clean)|
      ensures JoinEntries(rows, maps, validos, clean)[i].email != "" &&
              JoinEntries(rows, maps, validos, clean)[i].email in validos
    {
      JoinOrigin(rows, maps, validos, clean, i);
    }
  }

  /** Lines 147-160: the columns of one block, each hit appended to
      `$listaEmails` and counted in `$debugCount`. */
  method JoinColumns(linha: Cells, cols: seq<nat>, nome: string, validos: set<string>, clean: Clean,
                     lista0: seq<Entry>, count0: nat)
    returns (listaEmails: seq<Entry>, debugCount: nat)
    ensures listaEmails == lista0 + ColumnEntries(linha, cols, nome, validos, clean)
    ensures debugCount == count0 + |ColumnEntries(linha, cols, nome, validos, clean)|
  {
    listaEmails, debugCount := lista0, count0;
    for c := 0 to |cols|
      invariant listaEmails == lista0 + ColumnEntries(linha, cols[..c], nome, validos, clean)
      invariant debugCount == count0 + |ColumnEntries(linha, cols[..c], nome, validos, clean)|
    {
      assert cols[..c + 1][..c] == cols[..c];
      var cell := CellAt(linha, cols[c]);
      if cell.Some? {
        var email := clean.email(cell.value);
        if email != "" && email in validos {
          debugCount := debugCount + 1;
          listaEmails := listaEmails + [Entry(email, nome)];
        }
      }
    }
    assert cols[..|cols|] == cols;
  }

  /** Lines 142-161: the blocks of one row, in mapping order. */
  method JoinBlocks(linha: Cells, maps: seq<Mapping>, validos: set<string>, clean: Clean,
                    lista0: seq<Entry>, count0: nat)
    returns (listaEmails: seq<Entry>, debugCount: nat)
    ensures listaEmails == lista0 + MappingEntries(linha, maps, validos, clean)
    ensures debugCount == count0 + |MappingEntries(linha, maps, validos, clean)|
  {
    listaEmails, debugCount := lista0, count0;
    for m := 0 to |maps|
      invariant listaEmails == lista0 + MappingEntries(linha, maps[..m], validos, clean)
      invariant debugCount == count0 + |MappingEntries(linha, maps[..m], validos, clean)|
    {
      var config := maps[m];
      var nome := NameOf(linha, config.nomeIndex, clean);
      MappingPrefix(linha, maps, m, validos, clean);
      listaEmails, debugCount := JoinColumns(linha, config.emailIndexes, nome, validos, clean, listaEmails, debugCount);
    }
    assert maps[..|maps|] == maps;
  }

  /** Lines 135-162: `$listaEmails` and `$debugCount` over the whole sheet;
      the counter ends equal to the number of entries. */
  method JoinRows(rows: seq<Cells>, maps: seq<Mapping>, validos: set<string>, clean: Clean)
    returns (listaEmails: seq<Entry>, debugCount: nat)
    ensures listaEmails == JoinEntries(rows, maps, validos, clean)
    ensures debugCount == |listaEmails|
  {
    listaEmails, debugCount := [], 0;
    for k := 0 to |rows|
      invariant listaEmails == JoinEntries(rows[..k], maps, validos, clean)
      invariant debugCount == |listaEmails|
    {
      JoinPrefix(rows, k, maps, validos, clean);
      listaEmails, debugCount := JoinBlocks(rows[k], maps, validos, clean, listaEmails, debugCount);
    }
    assert rows[..|rows|] == rows;
  }

  /** The dedup key of line 171. */
  function EntryKey(e: Entry): string {
    e.email + "|" + e.nome
  }

  /** A PHP array keyed by strings: its keys in insertion order and the
      value stored under each. */
  datatype Unique = Unique(keys: seq<string>, byKey: map<string, Entry>)

  /** The keys listed once each, exactly the keys of the map, each value
      stored under its own key. */
  predicate UniqueWF(u: Unique) {
    && (forall i, j :: 0 <= i < j < |u.keys| ==> u.keys[i] != u.keys[j])
    && (forall i :: 0 <= i < |u.keys| ==> u.keys[i] in u.byKey)
    && (forall k :: k in u.byKey ==> k in u.keys && EntryKey(u.byKey[k]) == k)
  }

  /** `$listaUnica[$chave] = $item` over the first `items`: a new key goes
      last, an existing key keeps its place and takes the new value. */
  function Dedup(items: seq<Entry>): (u: Unique)
    ensures forall i :: 0 <= i < |u.keys| ==> u.keys[i] in u.byKey
    decreases |items|
  {
    if items == [] then Unique([], map[])
    else
      var u := Dedup(items[..|items| - 1]);
      var item := items[|items| - 1];
      var chave := EntryKey(item);
      if chave in u.byKey then Unique(u.keys, u.byKey[chave := item])
      else Unique(u.keys + [chave], u.byKey[chave := item])
  }

  /** The ordered map is well formed and has no more keys than items. */
  lemma {:induction false} DedupWF(items: seq<Entry>)
    ensures UniqueWF(Dedup(items)) && |Dedup(items).keys| <= |items|
    decreases |items|
  {
    if items != [] {
      DedupWF(items[..|items| - 1]);
    }
  }

  /** Every item's key is in the map, and the last item is the value
      stored under its key. */
  lemma {:induction false} DedupCovers(items: seq<Entry>)
    ensures forall i :: 0 <= i < |items| ==> EntryKey(items[i]) in Dedup(items).byKey
    ensures items != [] ==> Dedup(items).byKey[EntryKey(items[|items| - 1])] == items[|items| - 1]
    decreases |items|
  {
    if items != [] {
      var front := items[..|items| - 1];
      DedupCovers(front);
      forall i | 0 <= i < |items| - 1
        ensures EntryKey(items[i]) in Dedup(items).byKey
      {
        assert items[i] == front[i];
      }
    }
  }

  /** Every stored value is one of the items. */
  lemma {:induction false} DedupFromItems(items: seq<Entry>)
    ensures forall k :: k in Dedup(items).byKey ==> Dedup(items).byKey[k] in items
    decreases |items|
  {
    if items != [] {
      var front := items[..|items| - 1];
      DedupFromItems(front);
      var u := Dedup(items);
      forall k | k in u.byKey
        ensures u.byKey[k] in items
      {
        if k != EntryKey(items[|items| - 1]) {
          var u0 := Dedup(front);
          assert k in u0.byKey && u.byKey[k] == u0.byKey[k];
          var j :| 0 <= j < |front| && front[j] == u0.byKey[k];
          assert items[j] == front[j];
        }
      }
    }
  }

  /** Every listed key is the key of some item. */
  lemma DedupKeysFromItems(items: seq<Entry>, i: nat)
    requires i < |Dedup(items).keys|
    ensures exists p :: 0 <= p < |items| && EntryKey(items[p]) == Dedup(items).keys[i]
  {
    DedupWF(items);
    DedupFromItems(items);
    var u := Dedup(items);
    var k := u.keys[i];
    assert u.byKey[k] in items;
    var p :| 0 <= p < |items| && items[p] == u.byKey[k];
  }

  /** Whenever an item has a later-listed key, an item with an
      earlier-listed key comes before it. */
  ghost predicate KeyOrdered(items: seq<Entry>, keys: seq<string>) {
    forall i, j, q ::
      (0 <= i < j < |keys| && 0 <= q < |items| && EntryKey(items[q]) == keys[j]) ==>
      OccursBefore(items, keys[i], q)
  }

  /** Some item before position `q` has key `k`. */
  ghost predicate OccursBefore(items: seq<Entry>, k: string, q: nat) {
    exists p :: 0 <= p < q && p < |items| && EntryKey(items[p]) == k
  }

  /** A key keeps the place of its first occurrence. */
  lemma {:induction false} DedupKeyOrder(items: seq<Entry>)
    ensures KeyOrdered(items, Dedup(items).keys)
    decreases |items|
  {
    if items != [] {
      var front, last := items[..|items| - 1], items[|items| - 1];
      DedupKeyOrder(front);
      assert items == front + [last];
      DedupKeyOrderStep(front, last);
    }
  }

  /** The step of `DedupKeyOrder`: one more item. */
  lemma DedupKeyOrderStep(front: seq<Entry>, last: Entry)
    requires KeyOrdered(front, Dedup(front).keys)
    ensures KeyOrdered(front + [last], Dedup(front + [last]).keys)
  {
    var items := front + [last];
    assert items[..|items| - 1] == front;
    var u0 := Dedup(front);
    var keys := Dedup(items).keys;
    DedupWF(front);
    DedupCovers(front);
    assert keys == if EntryKey(last) in u0.byKey then u0.keys else u0.keys + [EntryKey(last)];
    forall i | 0 <= i < |u0.keys|
      ensures exists p :: 0 <= p < |front| && EntryKey(front[p]) == u0.keys[i]
    {
      DedupKeysFromItems(front, i);
    }
    OrderStep(front, last, items, u0, keys);
  }

  /** Every listed key is the key of some item. */
  ghost predicate KeysFromItems(items: seq<Entry>, keys: seq<string>) {
    forall i :: 0 <= i < |keys| ==> exists p :: 0 <= p < |items| && EntryKey(items[p]) == keys[i]
  }

  /** The step of `DedupKeyOrder`, stated over the map before and the keys
      after the new item. */
  lemma OrderStep(front: seq<Entry>, last: Entry, items: seq<Entry>, u0: Unique, keys: seq<string>)
    requires items == front + [last]
    requires KeyOrdered(front, u0.keys) && KeysFromItems(front, u0.keys)
    requires forall n :: 0 <= n < |front| ==> EntryKey(front[n]) in u0.byKey
    requires keys == if EntryKey(last) in u0.byKey then u0.keys else u0.keys + [EntryKey(last)]
    ensures KeyOrdered(items, keys)
  {
    forall i, j, q | 0 <= i < j < |keys| && 0 <= q < |items| && EntryKey(items[q]) == keys[j]
      ensures OccursBefore(items, keys[i], q)
    {
      assert |keys| <= |u0.keys| + 1;
      assert i < |u0.keys|;
      var p0 :| 0 <= p0 < |front| && EntryKey(front[p0]) == u0.keys[i];
      OrderOneTriple(front, last, items, u0, keys, i, j, q, p0);
    }
  }

  /** One triple of indices in the step of `DedupKeyOrder`: the witness is
      the front's own when `q` lies in the front, and `p0`, an occurrence of
      the earlier key in the front, when `q` is the new item. */
  lemma OrderOneTriple(front: seq<Entry>, last: Entry, items: seq<Entry>, u0: Unique, keys: seq<string>, i: nat, j: nat, q: nat, p0: nat)
    requires items == front + [last]
    requires KeyOrdered(front, u0.keys)
    requires forall n :: 0 <= n < |front| ==> EntryKey(front[n]) in u0.byKey
    requires keys == if EntryKey(last) in u0.byKey then u0.keys else u0.keys + [EntryKey(last)]
    requires i < j < |keys| && q <= |front| && EntryKey(items[q]) == keys[j]
    requires i < |u0.keys| && p0 < |front| && EntryKey(front[p0]) == u0.keys[i]
    ensures OccursBefore(items, keys[i], q)
  {
    assert items[p0] == front[p0];
    assert keys[i] == u0.keys[i];
    if q < |front| {
      assert items[q] == front[q];
      var inFront := EntryKey(last) in u0.byKey;
      if !inFront {
        assert keys[|u0.keys|] == EntryKey(last);
        assert EntryKey(front[q]) in u0.byKey;
      }
      assert j < |u0.keys|;
      assert keys[j] == u0.keys[j];
      var p :| 0 <= p < q && EntryKey(front[p]) == u0.keys[i];
      assert items[p] == front[p];
    }
  }

  /** The last item with a given key is the value kept under it. */
  lemma {:induction false} DedupLastWins(items: seq<Entry>, k: string)
    requires k in Dedup(items).byKey
    ensures exists i :: 0 <= i < |items| && items[i] == Dedup(items).byKey[k] &&
              forall j :: i < j < |items| ==> EntryKey(items[j]) != k
    decreases |items|
  {
    var front := items[..|items| - 1];
    var last := items[|items| - 1];
    if EntryKey(last) == k {
      assert Dedup(items).byKey[k] == last;
    } else {
      assert k in Dedup(front).byKey && Dedup(items).byKey[k] == Dedup(front).byKey[k];
      DedupLastWins(front, k);
      var i :| 0 <= i < |front| && front[i] == Dedup(front).byKey[k] &&
        forall j :: i < j < |front| ==> EntryKey(front[j]) != k;
      assert items[i] == front[i];
      assert forall j :: i < j < |front| ==> items[j] == front[j];
    }
  }

  /** `array_values`: the stored values in key order. */
  function ValuesOf(keys: seq<string>, byKey: map<string, Entry>): (r: seq<Entry>)
    requires forall i :: 0 <= i < |keys| ==> keys[i] in byKey
    ensures |r| == |keys|
    ensures forall i :: 0 <= i < |keys| ==> r[i] == byKey[keys[i]]
    decreases |keys|
  {
    if keys == [] then []
    else ValuesOf(keys[..|keys| - 1], byKey) + [byKey[keys[|keys| - 1]]]
  }

  /** Line 169-174: the deduplicated list. */
  function Deduplicated(items: seq<Entry>): seq<Entry> {
    var u := Dedup(items);
    ValuesOf(u.keys, u.byKey)
  }

  /** After dedup no two entries share a key, every key of the input is
      still there, every entry comes from the input, and the list is no
      longer than before. */
  lemma DedupProperties(items: seq<Entry>)
    ensures var r := Deduplicated(items);
            && |r| <= |items|
            && (forall i, j :: 0 <= i < j < |r| ==> EntryKey(r[i]) != EntryKey(r[j]))
            && (forall i :: 0 <= i < |items| ==> exists j :: 0 <= j < |r| && EntryKey(r[j]) == EntryKey(items[i]))
            && (forall j :: 0 <= j < |r| ==> r[j] in items)
  {
    DedupWF(items);
    DedupCovers(items);
    DedupFromItems(items);
    var u := Dedup(items);
    var r := Deduplicated(items);
    forall i | 0 <= i < |items|
      ensures exists j :: 0 <= j < |r| && EntryKey(r[j]) == EntryKey(items[i])
    {
      var key := EntryKey(items[i]);
      var j :| 0 <= j < |u.keys| && u.keys[j] == key;
      assert EntryKey(r[j]) == key;
    }
  }

  /** With distinct keys every item opens a new key, in order, and is the
      value stored under it. */
  lemma {:induction false} DedupDistinctKeys(items: seq<Entry>)
    requires forall i, j :: 0 <= i < j < |items| ==> EntryKey(items[i]) != EntryKey(items[j])
    ensures |Dedup(items).keys| == |items|
    ensures forall i :: 0 <= i < |items| ==> Dedup(items).keys[i] == EntryKey(items[i])
    ensures forall i :: 0 <= i < |items| ==> Dedup(items).byKey[EntryKey(items[i])] == items[i]
    decreases |items|
  {
    if items != [] {
      var front := items[..|items| - 1];
      var last := items[|items| - 1];
      DedupDistinctKeys(front);
      DedupWF(front);
      forall i | 0 <= i < |front|
        ensures EntryKey(front[i]) != EntryKey(last)
      {
        assert front[i] == items[i];
      }
      assert items == front + [last];
      DistinctStep(front, last, Dedup(front), Dedup(items));
    }
  }

  /** The step of `DedupDistinctKeys`: an item with a new key opens a key of
      its own at the end. */
  lemma DistinctStep(front: seq<Entry>, last: Entry, u: Unique, v: Unique)
    requires UniqueWF(u)
    requires |u.keys| == |front| && forall i :: 0 <= i < |front| ==> u.keys[i] == EntryKey(front[i])
    requires forall i :: 0 <= i < |front| ==> u.byKey[EntryKey(front[i])] == front[i]
    requires forall i :: 0 <= i < |front| ==> EntryKey(front[i]) != EntryKey(last)
    requires v == (if EntryKey(last) in u.byKey then Unique(u.keys, u.byKey[EntryKey(last) := last])
                   else Unique(u.keys + [EntryKey(last)], u.byKey[EntryKey(last) := last]))
    ensures |v.keys| == |front| + 1
    ensures forall i :: 0 <= i < |front| + 1 ==> v.keys[i] == EntryKey((front + [last])[i])
    ensures forall i :: 0 <= i < |front| + 1 ==> v.byKey[EntryKey((front + [last])[i])] == (front + [last])[i]
  {
    assert EntryKey(last) !in u.keys;
    forall i | 0 <= i < |front| + 1
      ensures v.keys[i] == EntryKey((front + [last])[i])
      ensures v.byKey[EntryKey((front + [last])[i])] == (front + [last])[i]
    {
      if i < |front| {
        assert (front + [last])[i] == front[i];
      }
    }
  }

  /** A list whose keys are already distinct comes out of the dedup as it
      went in. */
  lemma DedupDistinctUnchanged(items: seq<Entry>)
    requires forall i, j :: 0 <= i < j < |items| ==> EntryKey(items[i]) != EntryKey(items[j])
    ensures Deduplicated(items) == items
  {
    DedupDistinctKeys(items);
    var r := Deduplicated(items);
    assert forall i :: 0 <= i < |items| ==> r[i] == items[i];
  }

  /** The first "|" of "a|b" is the glued one when a holds none. */
  lemma FirstBar(a: string, b: string)
    requires '|' !in a
    ensures FirstIndexOf(a + "|" + b, '|') == Some(|a|)
  {
    var s := a + "|" + b;
    assert s[..|a|] == a;
    assert s[|a|] == '|';
  }

  /** Two strings glued with "|" after parts without "|" are equal only
      when both parts are. */
  lemma SplitAtFirstBar(a: string, b: string, c: string, d: string)
    requires '|' !in a && '|' !in c
    requires a + "|" + b == c + "|" + d
    ensures a == c && b == d
  {
    var s := a + "|" + b;
    FirstBar(a, b);
    FirstBar(c, d);
    assert a == s[..|a|] == c;
    assert b == s[|a| + 1..] == d;
  }

  /** For addresses without "|" the key determines the entry, so the dedup
      only drops exact repeats. */
  lemma KeyInjective(e1: Entry, e2: Entry)
    requires '|' !in e1.email && '|' !in e2.email
    ensures EntryKey(e1) == EntryKey(e2) <==> e1 == e2
  {
    if EntryKey(e1) == EntryKey(e2) {
      SplitAtFirstBar(e1.email, e1.nome, e2.email, e2.nome);
    }
  }

  /** Quirk kept from the source: an address holding "|" can share a key
      with a different entry, and the dedup then keeps only the later one. */
  lemma KeyCollision(a: string, b: string, c: string)
    ensures var e1 := Entry(a + "|" + b, c);
            var e2 := Entry(a, b + "|" + c);
            && EntryKey(e1) == EntryKey(e2)
            && Deduplicated([e1, e2]) == [e2]
  {
    var e1 := Entry(a + "|" + b, c);
    var e2 := Entry(a, b + "|" + c);
    var k := EntryKey(e1);
    assert k == EntryKey(e2);
    assert [e1, e2][..1] == [e1];
    assert [e1][..0] == [];
    assert Dedup([e1]) == Unique([k], map[k := e1]);
    assert Dedup([e1, e2]) == Unique([k], map[k := e2]);
  }

  /** Lines 169-174: fills the ordered map, then takes its values. */
  method DedupByKey(listaEmails: seq<Entry>) returns (listaUnica: seq<Entry>)
    ensures listaUnica == Deduplicated(listaEmails)
  {
    var keys: seq<string> := [];
    var byKey: map<string, Entry> := map[];
    for i := 0 to |listaEmails|
      invariant Unique(keys, byKey) == Dedup(listaEmails[..i])
    {
      assert listaEmails[..i + 1][..i] == listaEmails[..i];
      var item := listaEmails[i];
      var chave := EntryKey(item);
      if chave !in byKey {
        keys := keys + [chave];
      }
      byKey := byKey[chave := item];
    }
    assert listaEmails[..|listaEmails|] == listaEmails;
    listaUnica := [];
    for j := 0 to |keys|
      invariant listaUnica == ValuesOf(keys[..j], byKey)
    {
      assert keys[..j + 1][..j] == keys[..j];
      listaUnica := listaUnica + [byKey[keys[j]]];
    }
    assert keys[..|keys|] == keys;
  }

  /** The whole script between reading and exporting: the header rows are
      dropped, the valid set is built, the second sheet is joined against
      it through the mapping, and the hits are deduplicated. */
  method Relate(planilhaValidos: seq<Cells>, planilha2: seq<Cells>)
    returns (listaUnica: seq<Entry>, debugCount: nat)
    ensures var validos := ValidSet(DropHeader(planilhaValidos));
            var lista := JoinEntries(DropHeader(planilha2), MAPEAMENTO, validos, PHP_CLEAN);
            listaUnica == Deduplicated(lista) && debugCount == |lista|
  {
    var validos := BuildValidSet(DropHeader(planilhaValidos));
    var listaEmails;
    listaEmails, debugCount := JoinRows(DropHeader(planilha2), MAPEAMENTO, validos, PHP_CLEAN);
    listaUnica := DedupByKey(listaEmails);
  }

  /** The exported list: every address is valid and in normal form, no two
      lines share a key, and the header rows never matter. */
  lemma RelateOutcome(header1: Cells, valid: seq<Cells>, header2: Cells, rows: seq<Cells>)
    ensures var validos := ValidSet(DropHeader([header1] + valid));
            var r := Deduplicated(JoinEntries(DropHeader([header2] + rows), MAPEAMENTO, validos, PHP_CLEAN));
            && validos == ValidSet(valid)
            && r == Deduplicated(JoinEntries(rows, MAPEAMENTO, ValidSet(valid), PHP_CLEAN))
            && (forall j :: 0 <= j < |r| ==> r[j].email in validos && r[j].email != "" && Normalize(r[j].email) == r[j].email)
            && (forall i, j :: 0 <= i < j < |r| ==> EntryKey(r[i]) != EntryKey(r[j]))
  {
    assert ([header1] + valid)[1..] == valid;
    assert ([header2] + rows)[1..] == rows;
    var validos := ValidSet(valid);
    var lista := JoinEntries(rows, MAPEAMENTO, validos, PHP_CLEAN);
    JoinSound(rows, MAPEAMENTO, validos, PHP_CLEAN);
    DedupProperties(lista);
    var r := Deduplicated(lista);
    forall j | 0 <= j < |r|
      ensures r[j].email in validos && r[j].email != "" && Normalize(r[j].email) == r[j].email
    {
      assert r[j] in lista;
      ValidSetNormalized(valid, r[j].email);
    }
  }
}
