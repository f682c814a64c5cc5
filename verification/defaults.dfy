/** The built-in default configuration the controller merges caller input over. */
module Defaults {
  import opened Values

  const DefaultGlobals: map<string, Value> := map[
    "wrapfn" := Str("$scramjet$wrap"),
    "wrapthisfn" := Str("$scramjet$wrapthis"),
    "trysetfn" := Str("$scramjet$tryset"),
    "importfn" := Str("$scramjet$import"),
    "rewritefn" := Str("$scramjet$rewrite"),
    "metafn" := Str("$scramjet$meta"),
    "setrealmfn" := Str("$scramjet$setrealm"),
    "pushsourcemapfn" := Str("$scramjet$pushsourcemap")
  ]

  const DefaultFiles: map<string, Value> := map[
    "wasm" := Str("/scramjet.wasm.js"),
    "shared" := Str("/scramjet.shared.js"),
    "worker" := Str("/scramjet.worker.js"),
    "client" := Str("/scramjet.client.js"),
    "sync" := Str("/scramjet.sync.js")
  ]

  const DefaultFlags: map<string, Value> := map[
    "serviceworkers" := Bool(false),
    "naiiveRewriter" := Bool(false),
    "captureErrors" := Bool(true),
    "strictRewrites" := Bool(true),
    "syncxhr" := Bool(false),
    "cleanerrors" := Bool(false),
    "scramitize" := Bool(false),
    "sourcemaps" := Bool(false),
    "rewriterLogs" := Bool(true)
  ]

  /**
   * The codec snippets are source text, kept here only as opaque strings;
   * their behaviour is modelled in module Codec.
   */
  const DefaultCodec: map<string, Value> := map[
    "encode" := Str("if (!url) return url;\n\t\t\t\t\treturn encodeURIComponent(url);"),
    "decode" := Str("if (!url) return url;\n\t\t\t\t\treturn decodeURIComponent(url);")
  ]

  const DefaultConfig: Config := map[
    "prefix" := Str("/scramjet/"),
    "globals" := Rec(DefaultGlobals),
    "files" := Rec(DefaultFiles),
    "defaultFlags" := Rec(DefaultFlags),
    "siteFlags" := Rec(map[]),
    "codec" := Rec(DefaultCodec)
  ]

  /** The default flags record, and the two flags the examples rely on. */
  lemma DefaultFlagsShape()
    ensures "defaultFlags" in DefaultConfig && DefaultConfig["defaultFlags"] == Rec(DefaultFlags)
    ensures "captureErrors" in DefaultFlags && DefaultFlags["captureErrors"] == Bool(true)
    ensures "syncxhr" in DefaultFlags && DefaultFlags["syncxhr"] == Bool(false)
    ensures "prefix" in DefaultConfig && DefaultConfig["prefix"] == Str("/scramjet/")
  {
  }
}
