/** The normalisation half of `getEmissor` (main.go): dispatch on the shape
    of `historicoTaxas`, read the identity fields, and apply the empty-name
    rule. The HTTP request itself is abstracted as a `Response`. */
module Normalizer {
  import opened Wrappers
  import opened Json
  import opened Taxas

  /** One item of the catalog's `Value` array (Go struct CatalogoEmissor). */
  datatype CatalogoEmissor = CatalogoEmissor(
    api: string,
    versao: string,
    cnpjInstituicao: string,
    nomeInstituicao: string,
    recurso: string,
    argumento: string,
    situacao: string,
    urlDados: string,
    urlConsulta: string)

  /** An institution and its fee history (Go struct Emissor). */
  datatype Emissor = Emissor(emissorCnpj: string, emissorNome: string, historico: seq<EmissorTaxas>)

  /** The zero value of an Emissor. */
  const EmptyEmissor := Emissor("", "", [])

  /** What reading the response to `GET URLDados` gives: either the body
      read fails, or the body bytes, decoded (None only when they are not
      JSON). */
  datatype Response = ReadFailed(reason: string) | Body(doc: Option<Json>)

  /** The two errors getEmissor returns. */
  datatype FetchError =
    | ReadError(reason: string)
    | EmptyResult(nomeInstituicao: string)

  /** getEmissor returns a value AND an error; main uses the value only when
      the error is nil. */
  datatype Fetched = Fetched(emissor: Emissor, err: Option<FetchError>)

  const HistoricoKey := "historicoTaxas"
  const CnpjKey := "emissorCnpj"
  const NomeKey := "emissorNome"

  const MessagePrefix := "Emissor "
  const MessageSuffix := " n\U{E3}o retornou resultados"

  /** The text of an error, as main prints it. */
  function Message(e: FetchError): (msg: string)
    ensures e.EmptyResult? ==>
              |msg| == |MessagePrefix| + |e.nomeInstituicao| + |MessageSuffix| &&
              msg[..|MessagePrefix|] == MessagePrefix &&
              msg[|MessagePrefix|..|MessagePrefix| + |e.nomeInstituicao|] == e.nomeInstituicao &&
              msg[|MessagePrefix| + |e.nomeInstituicao|..] == MessageSuffix
    ensures e.ReadError? ==> msg == e.reason
  {
    match e
    case ReadError(reason) => reason
    case EmptyResult(nome) => MessagePrefix + nome + MessageSuffix
  }

  /** The type switch on `historicoTaxas`. */
  function Historico(raw: Json, parse: Parser): seq<EmissorTaxas>
  {
    match raw
    case JArr(items) => ConvertArrayEmissorTaxa(items, parse)
    case JObj(fields) => [ConvertEmissorTaxa(fields, parse)]
    case _ => []
  }

  /** The name test that decides success: `emissorNome` is a non-empty string. */
  predicate HasName(m: Object)
  {
    HasString(m, NomeKey) && m[NomeKey].s != ""
  }

  /** Lines 137-161 of getEmissor, from the decoded map onwards. */
  function Normalize(entry: CatalogoEmissor, m: Object, parse: Parser): (f: Fetched)
    ensures HasString(m, CnpjKey) ==> f.emissor.emissorCnpj == m[CnpjKey].s
    ensures !HasString(m, CnpjKey) ==> f.emissor.emissorCnpj == ""
    ensures HasString(m, NomeKey) ==> f.emissor.emissorNome == m[NomeKey].s
    ensures !HasString(m, NomeKey) ==> f.emissor.emissorNome == ""
    ensures f.err.Some? <==> !HasName(m)
    ensures f.err.Some? ==> f.err.value == EmptyResult(entry.nomeInstituicao) && f.emissor.historico == []
    ensures f.err.None? ==> f.emissor.emissorNome != ""
  {
    var historico := Historico(Get(m, HistoricoKey), parse);
    var cnpj := StringOr(m, CnpjKey);
    var nome := StringOr(m, NomeKey);
    if nome == "" then
      Fetched(Emissor(cnpj, nome, []), Some(EmptyResult(entry.nomeInstituicao)))
    else
      Fetched(Emissor(cnpj, nome, historico), None)
  }

  /** getEmissor after the transport step. */
  function GetEmissor(entry: CatalogoEmissor, resp: Response, parse: Parser): (f: Fetched)
    ensures resp.ReadFailed? ==> f == Fetched(EmptyEmissor, Some(ReadError(resp.reason)))
    ensures resp.Body? ==> f == Normalize(entry, TopLevel(resp.doc), parse)
    ensures f.err.None? <==> resp.Body? && HasName(TopLevel(resp.doc))
  {
    match resp
    case ReadFailed(reason) => Fetched(EmptyEmissor, Some(ReadError(reason)))
    case Body(doc) => Normalize(entry, TopLevel(doc), parse)
  }

  /** A history given as a single object becomes a one-element history. */
  lemma SingleObjectHistory(entry: CatalogoEmissor, m: Object, parse: Parser)
    requires HasName(m)
    requires HistoricoKey in m && m[HistoricoKey].JObj?
    ensures Normalize(entry, m, parse).err.None?
    ensures Normalize(entry, m, parse).emissor.historico
            == [ConvertEmissorTaxa(m[HistoricoKey].fields, parse)]
  {
  }

  /** A history given as an array keeps exactly its object elements,
      converted, in their original order. */
  lemma ArrayHistory(entry: CatalogoEmissor, m: Object, parse: Parser)
    requires HasName(m)
    requires HistoricoKey in m && m[HistoricoKey].JArr?
    ensures var h := Normalize(entry, m, parse).emissor.historico;
            var items := m[HistoricoKey].items;
            && |h| == ObjectCount(items)
            && forall i :: 0 <= i < |items| && items[i].JObj? ==>
                 ObjectCount(items[..i]) < |h| &&
                 h[ObjectCount(items[..i])] == ConvertEmissorTaxa(items[i].fields, parse)
  {
  }

  /** A missing, null or scalar history is empty. */
  lemma ScalarHistory(entry: CatalogoEmissor, m: Object, parse: Parser)
    requires HistoricoKey !in m || !(m[HistoricoKey].JArr? || m[HistoricoKey].JObj?)
    ensures Normalize(entry, m, parse).emissor.historico == []
  {
  }

  /** Without a usable name the fetch fails with the catalog's name, however
      the rest of the document looks; this includes a body that is not JSON. */
  lemma EmptyNameFails(entry: CatalogoEmissor, resp: Response, parse: Parser)
    requires resp.Body?
    requires !HasName(TopLevel(resp.doc))
    ensures GetEmissor(entry, resp, parse).err == Some(EmptyResult(entry.nomeInstituicao))
    ensures GetEmissor(entry, resp, parse).emissor.historico == []
  {
  }

  /** The document a well-behaved server sends for an institution. */
  function EmissorToJson(e: Emissor): Object
  {
    map[CnpjKey := JStr(e.emissorCnpj),
        NomeKey := JStr(e.emissorNome),
        HistoricoKey := JArr(HistoryToJson(e.historico))]
  }

  /** Normalising a well-formed document with a name gives the institution
      back, whatever the catalog entry and the float parser. */
  lemma DecodeEncodeEmissor(entry: CatalogoEmissor, e: Emissor, parse: Parser)
    requires e.emissorNome != ""
    ensures GetEmissor(entry, Body(Some(JObj(EmissorToJson(e)))), parse) == Fetched(e, None)
  {
    DecodeEncodeHistory(e.historico, parse);
  }
}
