/** The per-record decoder `convertEmissorTaxa` and the array filter
    `convertArrayEmissorTaxa` (main.go). */
module Taxas {
  import opened Wrappers
  import opened Json

  /** One fee observation (Go struct EmissorTaxas). */
  datatype EmissorTaxas = EmissorTaxas(
    taxaTipoGasto: string,
    taxaData: string,
    taxaConversao: Float64,
    taxaDivulgacaoDataHora: string)

  const TipoGastoKey := "taxaTipoGasto"
  const DataKey := "taxaData"
  const DivulgacaoKey := "taxaDivulgacaoDataHora"
  const ConversaoKey := "taxaConversao"

  /** strconv.ParseFloat(s, 64): Some on success, None when it returns an error. */
  type Parser = string -> Option<Float64>

  /** The rate field: a string goes through the parser and falls back to zero
      when parsing fails (the native-number branch is an `else if`, so it is
      not tried); a native number is taken as is; anything else is zero. */
  function Conversao(v: Json, parse: Parser): Float64
  {
    match v
    case JStr(s) => (match parse(s) case Some(t) => t case None => Zero)
    case JNum(n) => n
    case _ => Zero
  }

  /** convertEmissorTaxa: every field is optional and type-checked on its own. */
  function ConvertEmissorTaxa(m: Object, parse: Parser): (t: EmissorTaxas)
    ensures HasString(m, TipoGastoKey) ==> t.taxaTipoGasto == m[TipoGastoKey].s
    ensures !HasString(m, TipoGastoKey) ==> t.taxaTipoGasto == ""
    ensures HasString(m, DataKey) ==> t.taxaData == m[DataKey].s
    ensures !HasString(m, DataKey) ==> t.taxaData == ""
    ensures HasString(m, DivulgacaoKey) ==> t.taxaDivulgacaoDataHora == m[DivulgacaoKey].s
    ensures !HasString(m, DivulgacaoKey) ==> t.taxaDivulgacaoDataHora == ""
    ensures HasString(m, ConversaoKey) && parse(m[ConversaoKey].s).Some? ==>
              t.taxaConversao == parse(m[ConversaoKey].s).value
    ensures HasString(m, ConversaoKey) && parse(m[ConversaoKey].s).None? ==>
              t.taxaConversao == Zero
    ensures ConversaoKey in m && m[ConversaoKey].JNum? ==> t.taxaConversao == m[ConversaoKey].n
    ensures ConversaoKey !in m || !(m[ConversaoKey].JStr? || m[ConversaoKey].JNum?) ==>
              t.taxaConversao == Zero
  {
    EmissorTaxas(
      StringOr(m, TipoGastoKey),
      StringOr(m, DataKey),
      Conversao(Get(m, ConversaoKey), parse),
      StringOr(m, DivulgacaoKey))
  }

  /** Keys other than the four the decoder reads make no difference. */
  lemma IgnoresOtherKeys(m: Object, extra: Object, parse: Parser)
    requires TipoGastoKey !in extra && DataKey !in extra
    requires DivulgacaoKey !in extra && ConversaoKey !in extra
    ensures ConvertEmissorTaxa(extra + m, parse) == ConvertEmissorTaxa(m, parse)
  {
  }

  /** The document a well-behaved server sends for one record: strings as
      strings and the rate as a native number. */
  function TaxaToJson(t: EmissorTaxas): Object
  {
    map[TipoGastoKey := JStr(t.taxaTipoGasto),
        DataKey := JStr(t.taxaData),
        ConversaoKey := JNum(t.taxaConversao),
        DivulgacaoKey := JStr(t.taxaDivulgacaoDataHora)]
  }

  /** Decoding a well-formed record gives the record back, whatever the
      float parser does. */
  lemma DecodeEncode(t: EmissorTaxas, parse: Parser)
    ensures ConvertEmissorTaxa(TaxaToJson(t), parse) == t
  {
  }

  /** Number of elements of `items` that are objects. */
  function ObjectCount(items: seq<Json>): nat
  {
    if |items| == 0 then 0
    else ObjectCount(items[..|items| - 1]) + (if items[|items| - 1].JObj? then 1 else 0)
  }

  /** convertArrayEmissorTaxa: walk the array, appending the conversion of
      every object element and skipping every other element. */
  function ConvertArrayEmissorTaxa(items: seq<Json>, parse: Parser): (ts: seq<EmissorTaxas>)
    ensures |ts| == ObjectCount(items)
    ensures forall i :: 0 <= i < |items| && items[i].JObj? ==>
              ObjectCount(items[..i]) < |ts| &&
              ts[ObjectCount(items[..i])] == ConvertEmissorTaxa(items[i].fields, parse)
  {
    if |items| == 0 then []
    else
      var init := items[..|items| - 1];
      var rest := ConvertArrayEmissorTaxa(init, parse);
      assert forall i :: 0 <= i < |init| ==> items[..i] == init[..i];
      match items[|items| - 1]
      case JObj(fields) => rest + [ConvertEmissorTaxa(fields, parse)]
      case _ => rest
  }

  /** The filter distributes over concatenation: converting two arrays one
      after the other is converting their concatenation. */
  lemma {:induction false} ConvertArrayConcat(a: seq<Json>, b: seq<Json>, parse: Parser)
    ensures ConvertArrayEmissorTaxa(a + b, parse)
            == ConvertArrayEmissorTaxa(a, parse) + ConvertArrayEmissorTaxa(b, parse)
    decreases |b|
  {
    if |b| == 0 {
      assert a + b == a;
    } else {
      var b' := b[..|b| - 1];
      assert (a + b)[..|a + b| - 1] == a + b';
      ConvertArrayConcat(a, b', parse);
    }
  }

  /** Only object elements contribute: an array without objects gives an
      empty history. */
  lemma {:induction false} NoObjectsNoHistory(items: seq<Json>, parse: Parser)
    requires forall i :: 0 <= i < |items| ==> !items[i].JObj?
    ensures ConvertArrayEmissorTaxa(items, parse) == []
  {
    if |items| > 0 {
      NoObjectsNoHistory(items[..|items| - 1], parse);
    }
  }

  /** The array a well-behaved server sends for a whole history. */
  function HistoryToJson(ts: seq<EmissorTaxas>): (items: seq<Json>)
    ensures |items| == |ts|
  {
    seq(|ts|, i requires 0 <= i < |ts| => JObj(TaxaToJson(ts[i])))
  }

  /** Decoding a well-formed history array gives the history back. */
  lemma {:induction false} DecodeEncodeHistory(ts: seq<EmissorTaxas>, parse: Parser)
    ensures ConvertArrayEmissorTaxa(HistoryToJson(ts), parse) == ts
  {
    if |ts| > 0 {
      var ts' := ts[..|ts| - 1];
      assert HistoryToJson(ts)[..|ts| - 1] == HistoryToJson(ts');
      DecodeEncodeHistory(ts', parse);
      DecodeEncode(ts[|ts| - 1], parse);
    }
  }
}
