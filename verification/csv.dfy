/** The row construction of `salvaCsv` (main.go): one header, then one row
    per (institution, history entry). Quoting and file output are not part
    of this model; a row is the list of its cells. */
module Csv {
  import opened Json
  import opened Taxas
  import opened Normalizer

  /** strconv.FormatFloat(x, 'f', 6, 64). */
  type Formatter = Float64 -> string

  const Header: seq<string> :=
    ["nome_emissor", "cnpj_emissor", "dt_movimento", "tipo_gasto", "vl_taxa", "data_hora_divulgacao"]

  /** The six cells written for one history entry of one institution. */
  function Row(e: Emissor, t: EmissorTaxas, format: Formatter): seq<string>
  {
    [e.emissorNome, e.emissorCnpj, t.taxaData, t.taxaTipoGasto, format(t.taxaConversao), t.taxaDivulgacaoDataHora]
  }

  /** The rows of one institution, one per history entry, in history order. */
  function RowsOf(e: Emissor, format: Formatter): seq<seq<string>>
  {
    seq(|e.historico|, j requires 0 <= j < |e.historico| => Row(e, e.historico[j], format))
  }

  /** Sum of the history lengths of `taxas`. */
  function HistoryTotal(taxas: seq<Emissor>): nat
  {
    if |taxas| == 0 then 0
    else HistoryTotal(taxas[..|taxas| - 1]) + |taxas[|taxas| - 1].historico|
  }

  /** The data rows: the rows of each institution, institutions in order. */
  function Flatten(taxas: seq<Emissor>, format: Formatter): (rows: seq<seq<string>>)
    ensures |rows| == HistoryTotal(taxas)
    ensures forall k :: 0 <= k < |rows| ==> |rows[k]| == |Header|
  {
    if |taxas| == 0 then []
    else Flatten(taxas[..|taxas| - 1], format) + RowsOf(taxas[|taxas| - 1], format)
  }

  /** Row `rows[HistoryTotal(taxas[..i]) + j]` is the row of entry j of
      institution i: the rows of the institutions before i come first. */
  predicate RowAt(rows: seq<seq<string>>, taxas: seq<Emissor>, i: int, j: int, format: Formatter)
    requires 0 <= i < |taxas| && 0 <= j < |taxas[i].historico|
  {
    var k := HistoryTotal(taxas[..i]) + j;
    k < |rows| && rows[k] == Row(taxas[i], taxas[i].historico[j], format)
  }

  /** Every (institution, entry) pair has its row at its place. */
  lemma {:induction false} FlattenLayout(taxas: seq<Emissor>, format: Formatter)
    ensures forall i, j :: 0 <= i < |taxas| && 0 <= j < |taxas[i].historico| ==>
              RowAt(Flatten(taxas, format), taxas, i, j, format)
  {
    if |taxas| > 0 {
      var n := |taxas|;
      var init := taxas[..n - 1];
      FlattenLayout(init, format);
      var rows := Flatten(taxas, format);
      assert rows == Flatten(init, format) + RowsOf(taxas[n - 1], format);
      forall i, j | 0 <= i < n && 0 <= j < |taxas[i].historico|
        ensures RowAt(rows, taxas, i, j, format)
      {
        if i < n - 1 {
          assert taxas[..i] == init[..i];
          assert RowAt(Flatten(init, format), init, i, j, format);
        } else {
          assert taxas[..i] == init;
        }
      }
    }
  }

  /** salvaCsv: the header, then for each institution in order, for each of
      its history entries in order, one row. */
  method SalvaCsv(taxas: seq<Emissor>, format: Formatter) returns (rows: seq<seq<string>>)
    ensures rows == [Header] + Flatten(taxas, format)
    ensures |rows| == 1 + HistoryTotal(taxas)
  {
    rows := [Header];
    var i := 0;
    while i < |taxas|
      invariant 0 <= i <= |taxas|
      invariant rows == [Header] + Flatten(taxas[..i], format)
    {
      var emissor := taxas[i];
      var j := 0;
      while j < |emissor.historico|
        invariant 0 <= j <= |emissor.historico|
        invariant rows == [Header] + Flatten(taxas[..i], format) + RowsOf(emissor, format)[..j]
      {
        assert RowsOf(emissor, format)[..j + 1] == RowsOf(emissor, format)[..j] + [Row(emissor, emissor.historico[j], format)];
        rows := rows + [Row(emissor, emissor.historico[j], format)];
        j := j + 1;
      }
      assert RowsOf(emissor, format)[..j] == RowsOf(emissor, format);
      assert taxas[..i + 1][..i] == taxas[..i];
      i := i + 1;
    }
    assert taxas[..|taxas|] == taxas;
  }
}
