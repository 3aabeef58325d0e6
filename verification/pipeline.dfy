/** The driver `main` (main.go): fetch every catalog entry in order, keep
    the institutions whose fetch succeeded, and build the table from them.
    The catalog request and each institution request are parameters. */
module Pipeline {
  import opened Wrappers
  import opened Taxas
  import opened Normalizer
  import opened Csv

  /** The HTTP side of getEmissor: the response read for a catalog entry. */
  type Fetcher = CatalogoEmissor -> Response

  /** getEmissor on one catalog entry. */
  function Fetch(e: CatalogoEmissor, fetch: Fetcher, parse: Parser): Fetched
  {
    GetEmissor(e, fetch(e), parse)
  }

  predicate Succeeds(e: CatalogoEmissor, fetch: Fetcher, parse: Parser)
  {
    Fetch(e, fetch, parse).err.None?
  }

  /** Number of catalog entries whose fetch succeeds. */
  function SuccessCount(catalogo: seq<CatalogoEmissor>, fetch: Fetcher, parse: Parser): nat
  {
    if |catalogo| == 0 then 0
    else
      SuccessCount(catalogo[..|catalogo| - 1], fetch, parse)
      + (if Succeeds(catalogo[|catalogo| - 1], fetch, parse) then 1 else 0)
  }

  /** Sum of the history lengths of the entries whose fetch succeeds. */
  function SuccessfulHistoryTotal(catalogo: seq<CatalogoEmissor>, fetch: Fetcher, parse: Parser): nat
  {
    if |catalogo| == 0 then 0
    else
      var last := catalogo[|catalogo| - 1];
      SuccessfulHistoryTotal(catalogo[..|catalogo| - 1], fetch, parse)
      + (if Succeeds(last, fetch, parse) then |Fetch(last, fetch, parse).emissor.historico| else 0)
  }

  /** The institutions main keeps: those of the succeeding entries, in
      catalog order. */
  function Successes(catalogo: seq<CatalogoEmissor>, fetch: Fetcher, parse: Parser): (taxas: seq<Emissor>)
    ensures |taxas| == SuccessCount(catalogo, fetch, parse)
    ensures forall k :: 0 <= k < |taxas| ==> taxas[k].emissorNome != ""
    ensures HistoryTotal(taxas) == SuccessfulHistoryTotal(catalogo, fetch, parse)
  {
    if |catalogo| == 0 then []
    else
      var rest := Successes(catalogo[..|catalogo| - 1], fetch, parse);
      var f := Fetch(catalogo[|catalogo| - 1], fetch, parse);
      if f.err.None? then
        assert (rest + [f.emissor])[..|rest|] == rest;
        rest + [f.emissor]
      else rest
  }

  /** The institution of a succeeding entry i sits right after those of the
      succeeding entries before i. */
  predicate KeptAt(taxas: seq<Emissor>, catalogo: seq<CatalogoEmissor>, i: int, fetch: Fetcher, parse: Parser)
    requires 0 <= i < |catalogo|
  {
    var k := SuccessCount(catalogo[..i], fetch, parse);
    k < |taxas| && taxas[k] == Fetch(catalogo[i], fetch, parse).emissor
  }

  /** Every succeeding entry has its institution at its place. */
  lemma {:induction false} SuccessesLayout(catalogo: seq<CatalogoEmissor>, fetch: Fetcher, parse: Parser)
    ensures forall i :: 0 <= i < |catalogo| && Succeeds(catalogo[i], fetch, parse) ==>
              KeptAt(Successes(catalogo, fetch, parse), catalogo, i, fetch, parse)
  {
    if |catalogo| > 0 {
      var n := |catalogo|;
      var init := catalogo[..n - 1];
      SuccessesLayout(init, fetch, parse);
      forall i | 0 <= i < n && Succeeds(catalogo[i], fetch, parse)
        ensures KeptAt(Successes(catalogo, fetch, parse), catalogo, i, fetch, parse)
      {
        if i < n - 1 {
          assert catalogo[..i] == init[..i];
          assert KeptAt(Successes(init, fetch, parse), init, i, fetch, parse);
        } else {
          assert catalogo[..i] == init;
        }
      }
    }
  }

  /** The loop of main over `catalogo.Value`: successful fetches are
      appended, failed ones are logged and skipped. */
  method CollectEmissores(catalogo: seq<CatalogoEmissor>, fetch: Fetcher, parse: Parser)
    returns (taxas: seq<Emissor>)
    ensures taxas == Successes(catalogo, fetch, parse)
  {
    taxas := [];
    var i := 0;
    while i < |catalogo|
      invariant 0 <= i <= |catalogo|
      invariant taxas == Successes(catalogo[..i], fetch, parse)
    {
      var f := GetEmissor(catalogo[i], fetch(catalogo[i]), parse);
      assert catalogo[..i + 1][..i] == catalogo[..i];
      if f.err.None? {
        taxas := taxas + [f.emissor];
      }
      i := i + 1;
    }
    assert catalogo[..|catalogo|] == catalogo;
  }

  /** Every data row of a table built from named institutions starts with a
      non-empty name. */
  lemma {:induction false} FlattenNamed(taxas: seq<Emissor>, format: Formatter)
    requires forall k :: 0 <= k < |taxas| ==> taxas[k].emissorNome != ""
    ensures forall k :: 0 <= k < |Flatten(taxas, format)| ==> Flatten(taxas, format)[k][0] != ""
  {
    if |taxas| > 0 {
      FlattenNamed(taxas[..|taxas| - 1], format);
    }
  }

  /** main: no catalog means no file; otherwise one header and one row per
      history entry of every succeeding catalog entry. */
  method Run(catalogo: Option<seq<CatalogoEmissor>>, fetch: Fetcher, parse: Parser, format: Formatter)
    returns (table: Option<seq<seq<string>>>)
    ensures table.None? <==> catalogo.None?
    ensures table.Some? ==> |table.value| == 1 + SuccessfulHistoryTotal(catalogo.value, fetch, parse)
    ensures table.Some? ==> table.value[0] == Header
    ensures table.Some? ==> table.value == [Header] + Flatten(Successes(catalogo.value, fetch, parse), format)
    ensures table.Some? ==> forall k :: 1 <= k < |table.value| ==>
              |table.value[k]| == |Header| && table.value[k][0] != ""
  {
    if catalogo.None? {
      return None;
    }
    var taxas := CollectEmissores(catalogo.value, fetch, parse);
    var rows := SalvaCsv(taxas, format);
    FlattenNamed(taxas, format);
    assert forall k :: 1 <= k < |rows| ==> rows[k] == Flatten(taxas, format)[k - 1];
    table := Some(rows);
  }
}
