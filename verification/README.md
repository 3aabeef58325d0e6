# Tolerant fee-history normaliser — Dafny model

This project models the core of a small Go tool that collects card-fee
conversion rates published by the Brazilian central bank. The tool reads a
catalog of institutions, fetches one JSON document per institution, and
normalises that document. The document is inconsistent: `historicoTaxas` is
sometimes an array of records and sometimes a single record, and
`taxaConversao` is sometimes a string and sometimes a number. The normalised
institutions are then flattened into a semicolon-separated table with one row
per (institution, history entry).

The model is purely functional apart from three methods: the two loops of
the program (`Csv.SalvaCsv`, `Pipeline.CollectEmissores`) and
`Pipeline.Run`, which chains them:

- `Json` (json.dfy): the value tree that `encoding/json` builds for
  `interface{}` (nil, bool, float64, string, array, object). A Go float64 is
  kept opaque as its 64-bit pattern, and its zero value is `Zero`. A missing
  map key reads as `JNull`, as in Go. `TopLevel` says how the ignored
  `json.Unmarshal` error behaves: only a JSON object fills the map, and
  anything else leaves a nil map, which reads as empty.
- `Taxas` (taxas.dfy): `convertEmissorTaxa` and `convertArrayEmissorTaxa`.
- `Normalizer` (normalizer.dfy): the shape dispatch on `historicoTaxas`, the
  identity fields and the empty-name rule of `getEmissor`. The HTTP response
  is a `Response`: either the body read fails, or it yields the decoded body
  (`None` when the bytes are not JSON).
- `Csv` (csv.dfy): the rows that `salvaCsv` writes.
- `Pipeline` (pipeline.dfy): the loop in `main` that keeps successful
  fetches, and the whole run.

Parameters stand for the parts that are not modelled:

- `strconv.ParseFloat` is `parse: string -> Option<Float64>`, where `None`
  means the call returned an error.
- `strconv.FormatFloat(x, 'f', 6, 64)` is `format: Float64 -> string`.
- The HTTP GET plus body read for a catalog entry is
  `fetch: CatalogoEmissor -> Response`.
- The catalog request is an `Option<seq<CatalogoEmissor>>`, where `None`
  means `getCatalogo` failed.

Facts about main.go that shape the model:

- The JSON keys read are `historicoTaxas`, `emissorCnpj` and `emissorNome`
  on the institution document, and `taxaTipoGasto`, `taxaData`,
  `taxaConversao` and `taxaDivulgacaoDataHora` on each record.
- When `client.Get` fails with a nil response, the program logs the error
  and then reads from that nil response (main.go:122-127), which would crash
  the process. No `Response` value stands for this. A transport error that
  still returns a response, such as a failed redirect check, returns a body
  that is already closed. Reading it usually fails, which is the
  `ReadFailed` path. When the redirect response has no body, the read gives
  empty bytes, which are not JSON (`Body(None)`), and the fetch fails with
  `EmptyResult`.
- The empty-name error (main.go:149-157) still returns an `Emissor` carrying
  the parsed `emissorCnpj` and the empty name, but no history. `Fetched`
  keeps both the value and the error so that this shows.
- A number in the document that is out of float64 range (such as `1e400`)
  makes `encoding/json` store nil in its place. It keeps decoding the rest
  and returns an error that main.go:135 ignores. Such a value appears as
  `JNull` in the tree.

## Model

| member | source | states |
|---|---|---|
| Json.TopLevel | main.go:134-135 | With the `json.Unmarshal` error ignored, only a body that is a JSON object fills the map. A malformed body or any other top-level value leaves the map nil, and a nil map reads as empty. |
| Json.StringOr | main.go:149-153 | A comma-ok string read `if s, ok := m[key].(string); ok` on a zero-valued field gives the string when the key holds one, and "" when the key is missing or holds any other type. |
| Taxas.ConvertEmissorTaxa | main.go:174-195 | Each of `taxaTipoGasto`, `taxaData` and `taxaDivulgacaoDataHora` is copied verbatim when it is a string and is "" otherwise. For `taxaConversao`: a string that parses gives the parsed value; a string that fails to parse gives zero, because the number branch is not tried; a native number is used as is; a missing key or any other type gives zero. |
| Taxas.IgnoresOtherKeys | main.go:174-195 | Keys other than the four record keys do not change the decoded record. |
| Taxas.DecodeEncode | main.go:174-195 | A record sent with string fields and a numeric rate decodes back to itself, for every float parser. |
| Taxas.ConvertArrayEmissorTaxa | main.go:164-172 | The result has exactly as many entries as the array has object elements. The object at index i becomes entry number "objects before i", so objects keep their relative order and non-objects are skipped. |
| Taxas.ConvertArrayConcat | main.go:164-172 | Converting a concatenation gives the concatenation of the conversions, so the filter preserves order. |
| Taxas.NoObjectsNoHistory | main.go:164-172 | An array with no object elements gives an empty history. |
| Taxas.DecodeEncodeHistory | main.go:164-172 | An array of well-formed record objects decodes back to the original history. |
| Normalizer.Message | main.go:155-156 | The empty-result error text is "Emissor ", then the catalog's `NomeInstituicao`, then " não retornou resultados". A read error's text is the read error itself. |
| Normalizer.Normalize | main.go:137-161 | `emissorCnpj` and `emissorNome` are taken only when they are strings, and are "" otherwise. The result is an error exactly when the name is missing, not a string, or "". That error is `EmptyResult` with the catalog's name, and its value has an empty history. A success always has a non-empty name. |
| Normalizer.GetEmissor | main.go:127-161 | A failed body read returns the zero `Emissor` with the read error, and normalisation is not attempted. Otherwise the decoded body is normalised, a non-object or malformed body counting as an empty map. The fetch succeeds exactly when the body is an object with a non-empty string `emissorNome`. |
| Normalizer.SingleObjectHistory | main.go:143-145 | If `historicoTaxas` is a single object, the history is exactly one entry: the conversion of that object. |
| Normalizer.ArrayHistory | main.go:141-142 | If `historicoTaxas` is an array, the history has one entry per object element, and each entry is the converted object in original relative order. |
| Normalizer.ScalarHistory | main.go:140-147 | If `historicoTaxas` is missing, null or a scalar, the history is empty. |
| Normalizer.EmptyNameFails | main.go:134-157 | If the body lacks a non-empty string `emissorNome`, the fetch fails with `EmptyResult` carrying the catalog's name and an empty history, whatever the history or `emissorCnpj` hold. This includes bodies that are not JSON. |
| Normalizer.DecodeEncodeEmissor | main.go:133-161 | A well-formed institution document with a non-empty name normalises back to that institution, with no error. |
| Csv.Flatten | main.go:90-103 | There is one data row per history entry across all institutions, so the row count is the sum of history lengths. Every row has the six header columns. |
| Csv.FlattenLayout | main.go:90-103 | The row of entry j of institution i is `[nome, cnpj, taxaData, taxaTipoGasto, format(taxa), taxaDivulgacaoDataHora]`. It sits right after the rows of all earlier institutions: institution order first, then history order. |
| Csv.SalvaCsv | main.go:87-103 | The nested loop writes the fixed six-column header followed by the flattened rows, giving 1 + (sum of history lengths) rows. |
| Pipeline.Successes | main.go:67-73 | There is one kept institution per succeeding catalog entry. Every kept institution has a non-empty name. The history total of the kept institutions is the sum over succeeding entries only, so a failed entry contributes nothing. |
| Pipeline.SuccessesLayout | main.go:67-73 | The institution of succeeding entry i sits at position "successes before i", so the kept institutions follow catalog order. |
| Pipeline.CollectEmissores | main.go:67-73 | The loop that appends each successful fetch and skips each failure computes exactly `Successes`. |
| Pipeline.FlattenNamed | main.go:90-99 | When every institution has a name, every data row starts with a non-empty name. |
| Pipeline.Run | main.go:56-76 | A failed catalog fetch gives no table. Otherwise the table is exactly the header followed by `Flatten` of `Successes`: one row for each history entry of each succeeding entry, in catalog order and then history order. A failed institution contributes no rows. Every data row has six cells and a non-empty name. |

## Left out

- `getCatalogo` (main.go:197-226) and the institution HTTP request with its TLS settings (main.go:116-125): these are network I/O. The catalog result is an input, and each institution's response comes from the `fetch` parameter. That function gives the same response for the same entry.
- The nil-response read after an ignored transport error (main.go:122-127): it is a runtime crash, not logic. No `Response` value stands for it.
- `json.Unmarshal` (main.go:135, main.go:217): the model starts from the decoded value tree. `Body(None)` stands only for bytes that are not JSON. An out-of-range number inside valid JSON is `JNull` in the tree.
- `strconv.ParseFloat` and `strconv.FormatFloat` (main.go:187, main.go:97): these are floating-point parsing and formatting, so they are the `parse` and `format` parameters.
- `getCatalogoUrl` (main.go:228-243): it is string formatting around `url.PathEscape`, a library call.
- CSV quoting, file creation, `writer.Flush`, `checkError` and `log.Fatal` (main.go:78-85, main.go:100-101, main.go:106-110): these are file I/O and a library serialiser. A table is modelled as its list of rows of cells.
- Console output in `main` and `getEmissor`: it is logging only.
