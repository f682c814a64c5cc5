/**
 * The default codec's two snippets. The platform's `encodeURIComponent` and
 * `decodeURIComponent` are parameters: only the snippets' own logic, the
 * pass-through of an empty (falsy) input, is modelled.
 */
module Codec {

  /** The default encode snippet: an empty URL is returned as is, any other is component-encoded. */
  function DefaultEncode(encodeComponent: string -> string, url: string): (r: string)
    ensures url == "" ==> r == url
    ensures url != "" ==> r == encodeComponent(url)
  {
    if url == "" then url else encodeComponent(url)
  }

  /** The default decode snippet: an empty URL is returned as is, any other is component-decoded. */
  function DefaultDecode(decodeComponent: string -> string, url: string): (r: string)
    ensures url == "" ==> r == url
    ensures url != "" ==> r == decodeComponent(url)
  {
    if url == "" then url else decodeComponent(url)
  }

  /** True iff an encode function hands the empty string back unchanged. */
  predicate PassesEmptyThrough(encode: string -> string)
  {
    encode("") == ""
  }

  /** True iff `decode` undoes `encode` on non-empty strings, which `encode` keeps non-empty. */
  ghost predicate InvertsOnNonEmpty(encode: string -> string, decode: string -> string)
  {
    forall u :: u != "" ==> encode(u) != "" && decode(encode(u)) == u
  }

  /** The default encode snippet passes the empty string through, whatever the component encoder does. */
  lemma DefaultEncodePassesEmptyThrough(encodeComponent: string -> string)
    ensures PassesEmptyThrough(u => DefaultEncode(encodeComponent, u))
  {
  }

  /** With inverse component functions, the default decode snippet undoes the default encode snippet on every string. */
  lemma DefaultCodecRoundTrip(encodeComponent: string -> string, decodeComponent: string -> string, url: string)
    requires InvertsOnNonEmpty(encodeComponent, decodeComponent)
    ensures DefaultDecode(decodeComponent, DefaultEncode(encodeComponent, url)) == url
  {
  }
}
