/**
 * The centralised configuration loader: a process-wide cache filled once by
 * `load_config` from a YAML file, and `get_config`, a dotted-path lookup
 * with a default.
 *
 * The file system and the YAML parser are not modelled: a call to the loader
 * comes with what they would answer for it (whether the resolved path exists,
 * and the parsed document or `None` when the text is not valid YAML).
 */
module Config {
  import opened Wrappers
  import Strings

  /** A parsed YAML document: mappings with string keys, lists and scalars. */
  datatype Value =
    | Mapping(entries: map<string, Value>)
    | List(items: seq<Value>)
    | Str(s: string)
    | Int(i: int)
    | Bool(b: bool)
    | Null

  /** Python truthiness of a document: empty containers, `""`, `0`, `False` and `None` are false. */
  predicate Truthy(v: Value)
  {
    match v
    case Mapping(m) => m != map[]
    case List(xs) => xs != []
    case Str(s) => s != ""
    case Int(i) => i != 0
    case Bool(b) => b
    case Null => false
  }

  const EmptyMapping: Value := Mapping(map[])

  /** The path `load_config` reads when it is given none. */
  const DefaultPath: string := "config/config.yaml"

  datatype ConfigError =
    | NotFound(path: string)      // the resolved path does not exist
    | ParseError(path: string)    // the file is not valid YAML; the parser's error propagates

  /** The text of the error raised for a missing file. */
  function NotFoundMessage(path: string): string
  {
    "Configuration file not found: " + path + ". Create it or specify a custom path."
  }

  /** `t` occurs in `s` starting at index `k`. */
  predicate OccursAt(t: string, s: string, k: nat)
  {
    k + |t| <= |s| && s[k..k + |t|] == t
  }

  /** The message of a missing-file error names the path that was looked for. */
  lemma {:induction false} NotFoundMessageNamesPath(path: string)
    ensures OccursAt(path, NotFoundMessage(path), |"Configuration file not found: "|)
  {
  }

  // ---------------------------------------------------------------------------
  // load_config
  // ---------------------------------------------------------------------------

  /**
   * One call of `load_config`: the path after `expanduser`, and what the
   * file system and the parser answer for it.
   */
  datatype Request = Request(path: string, fileExists: bool, parsed: Option<Value>)

  datatype LoadOutcome = LoadOutcome(result: Result<Value, ConfigError>, cache: Option<Value>)

  /** What one call of `load_config` returns or raises, and the cache it leaves behind. */
  function LoadStep(cache: Option<Value>, req: Request): LoadOutcome
  {
    if cache.Some? then LoadOutcome(Success(cache.value), cache)
    else if !req.fileExists then LoadOutcome(Failure(NotFound(req.path)), None)
    else
      match req.parsed
      case None => LoadOutcome(Failure(ParseError(req.path)), None)
      case Some(doc) =>
        var d := if Truthy(doc) then doc else EmptyMapping;
        LoadOutcome(Success(d), Some(d))
  }

  /** A filled cache answers every call itself, whatever the path, and stays as it is. */
  lemma {:induction false} LoadCachedIgnoresRequest(d: Value, req: Request)
    ensures LoadStep(Some(d), req) == LoadOutcome(Success(d), Some(d))
  {
  }

  /** A first call on a missing file raises an error that names the path, and leaves the cache empty. */
  lemma {:induction false} LoadMissingFile(req: Request)
    requires !req.fileExists
    ensures LoadStep(None, req) == LoadOutcome(Failure(NotFound(req.path)), None)
    ensures OccursAt(req.path, NotFoundMessage(req.path), 30)
  {
  }

  /** A first call on a file that is not valid YAML raises and leaves the cache empty. */
  lemma {:induction false} LoadParseErrorKeepsCacheEmpty(req: Request)
    requires req.fileExists && req.parsed == None
    ensures LoadStep(None, req) == LoadOutcome(Failure(ParseError(req.path)), None)
  {
  }

  /** A first call on a file that parses to a falsy value (empty file, `null`, `{}`, `0`, ...) caches and returns `{}`. */
  lemma {:induction false} LoadFalsyIsEmptyMapping(req: Request)
    requires req.fileExists && req.parsed.Some? && !Truthy(req.parsed.value)
    ensures LoadStep(None, req) == LoadOutcome(Success(EmptyMapping), Some(EmptyMapping))
  {
  }

  /** A first call on a file that parses to a truthy document caches and returns that document unchanged. */
  lemma {:induction false} LoadParsedDocument(req: Request)
    requires req.fileExists && req.parsed.Some? && Truthy(req.parsed.value)
    ensures LoadStep(None, req) == LoadOutcome(Success(req.parsed.value), req.parsed)
  {
  }

  /** The results of a sequence of `load_config` calls made one after another, and the final cache. */
  datatype Trace = Trace(results: seq<Result<Value, ConfigError>>, cache: Option<Value>)

  function Run(cache: Option<Value>, reqs: seq<Request>): (t: Trace)
    ensures |t.results| == |reqs|
    decreases |reqs|
  {
    if reqs == [] then Trace([], cache)
    else
      var o := LoadStep(cache, reqs[0]);
      var rest := Run(o.cache, reqs[1..]);
      Trace([o.result] + rest.results, rest.cache)
  }

  /** Once the cache holds `d`, every later call returns `d` and the cache never changes. */
  lemma {:induction false} PinnedForever(d: Value, reqs: seq<Request>)
    ensures forall k :: 0 <= k < |reqs| ==> Run(Some(d), reqs).results[k] == Success(d)
    ensures Run(Some(d), reqs).cache == Some(d)
    decreases |reqs|
  {
    if reqs != [] {
      PinnedForever(d, reqs[1..]);
    }
  }

  /**
   * Every document any call returns is the one the cache holds at the end:
   * all successful loads agree, and a filled cache is never replaced.
   */
  lemma {:induction false} SuccessesAgree(cache: Option<Value>, reqs: seq<Request>)
    ensures forall k :: 0 <= k < |reqs| && Run(cache, reqs).results[k].Success? ==>
                          Run(cache, reqs).cache == Some(Run(cache, reqs).results[k].value)
    ensures cache.Some? ==> Run(cache, reqs).cache == cache
    decreases |reqs|
  {
    if cache.Some? {
      PinnedForever(cache.value, reqs);
    } else if reqs != [] {
      var o := LoadStep(cache, reqs[0]);
      SuccessesAgree(o.cache, reqs[1..]);
    }
  }

  /** Starting empty, the cache ends up filled exactly when some call succeeded. */
  lemma {:induction false} FilledIffSomeSuccess(reqs: seq<Request>)
    ensures var t := Run(None, reqs);
      t.cache.Some? <==> exists k :: 0 <= k < |reqs| && t.results[k].Success?
    decreases |reqs|
  {
    if reqs != [] {
      var o := LoadStep(None, reqs[0]);
      var t := Run(None, reqs);
      if o.cache.Some? {
        PinnedForever(o.cache.value, reqs[1..]);
        assert t.results[0].Success?;
      } else {
        FilledIffSomeSuccess(reqs[1..]);
        var rest := Run(None, reqs[1..]);
        assert forall k :: 1 <= k < |reqs| ==> t.results[k] == rest.results[k - 1];
        if rest.cache.Some? {
          var k :| 0 <= k < |reqs| - 1 && rest.results[k].Success?;
          assert t.results[k + 1].Success?;
        }
      }
    }
  }

  // ---------------------------------------------------------------------------
  // get_config
  // ---------------------------------------------------------------------------

  /** The walk over the key's segments: descend while the node is a mapping holding the segment. */
  function Lookup(node: Value, segs: seq<string>, default: Value): Value
    decreases |segs|
  {
    if segs == [] then node
    else if node.Mapping? && segs[0] in node.entries then Lookup(node.entries[segs[0]], segs[1..], default)
    else default
  }

  /** `get_config(key, default, _config=doc)` once the document is at hand. */
  function Get(doc: Value, key: string, default: Value): Value
  {
    Lookup(doc, Strings.Split(key, '.'), default)
  }

  /** `seg` is a key of the mapping `node`: the step the walk can take. */
  predicate CanStep(node: Value, seg: string)
  {
    node.Mapping? && seg in node.entries
  }

  /** `nodes` is a complete walk from `node` along `segs`: each step goes one key deeper in a mapping. */
  ghost predicate IsWalk(node: Value, segs: seq<string>, nodes: seq<Value>)
  {
    && |nodes| == |segs| + 1
    && nodes[0] == node
    && forall k :: 0 <= k < |segs| ==> CanStep(nodes[k], segs[k]) && nodes[k + 1] == nodes[k].entries[segs[k]]
  }

  /** When every segment is present in successively nested mappings, the final node is returned as is. */
  lemma {:induction false} LookupFound(node: Value, segs: seq<string>, nodes: seq<Value>, default: Value)
    requires IsWalk(node, segs, nodes)
    ensures Lookup(node, segs, default) == nodes[|segs|]
    decreases |segs|
  {
    if segs != [] {
      assert CanStep(nodes[0], segs[0]);
      LookupFound(nodes[1], segs[1..], nodes[1..], default);
    }
  }

  /**
   * When the walk gets through the first `k` segments but segment `k` is
   * missing or the node reached is not a mapping, the default is returned.
   */
  lemma {:induction false} LookupStops(node: Value, segs: seq<string>, nodes: seq<Value>, k: nat, default: Value)
    requires k < |segs|
    requires IsWalk(node, segs[..k], nodes)
    requires !CanStep(nodes[k], segs[k])
    ensures Lookup(node, segs, default) == default
    decreases k
  {
    if k > 0 {
      assert CanStep(nodes[0], segs[0]);
      assert segs[1..][..k - 1] == segs[..k][1..];
      LookupStops(nodes[1], segs[1..], nodes[1..], k - 1, default);
    }
  }

  /** The nodes the walk visits before it completes or gives up. */
  function Trail(node: Value, segs: seq<string>): (w: seq<Value>)
    ensures 1 <= |w| <= |segs| + 1 && w[0] == node
    decreases |segs|
  {
    if segs != [] && CanStep(node, segs[0]) then [node] + Trail(node.entries[segs[0]], segs[1..])
    else [node]
  }

  /**
   * Every walk either goes through all segments or stops at a first segment
   * it cannot take; with LookupFound and LookupStops this decides every lookup.
   */
  lemma {:induction false} TrailIsWalk(node: Value, segs: seq<string>)
    ensures var w := Trail(node, segs);
      && IsWalk(node, segs[..|w| - 1], w)
      && (|w| <= |segs| ==> !CanStep(w[|w| - 1], segs[|w| - 1]))
    decreases |segs|
  {
    if segs != [] && CanStep(node, segs[0]) {
      var w := Trail(node, segs);
      var w' := Trail(node.entries[segs[0]], segs[1..]);
      TrailIsWalk(node.entries[segs[0]], segs[1..]);
      assert w == [node] + w';
      assert segs[..|w| - 1][1..] == segs[1..][..|w'| - 1];
    }
  }

  /** Looking up a path `p + q` is looking up `q` in the node that `p` reaches. */
  lemma {:induction false} LookupAppend(node: Value, p: seq<string>, q: seq<string>, nodes: seq<Value>, default: Value)
    requires IsWalk(node, p, nodes)
    ensures Lookup(node, p + q, default) == Lookup(nodes[|p|], q, default)
    decreases |p|
  {
    if p != [] {
      assert CanStep(nodes[0], p[0]);
      assert (p + q)[0] == p[0] && (p + q)[1..] == p[1..] + q;
      assert nodes[1] == node.entries[p[0]];
      assert nodes[1..][|p[1..]|] == nodes[|p|];
      LookupAppend(nodes[1], p[1..], q, nodes[1..], default);
      assert Lookup(node, p + q, default) == Lookup(nodes[1], p[1..] + q, default);
    } else {
      assert p + q == q;
    }
  }

  /**
   * Dotted keys compose: `a.rest` is `rest` looked up in the value at `a`
   * when the document is a mapping holding `a`, and the default otherwise.
   */
  lemma {:induction false} GetDotted(doc: Value, a: string, rest: string, default: Value)
    requires '.' !in a
    ensures Get(doc, a + "." + rest, default)
         == if CanStep(doc, a) then Get(doc.entries[a], rest, default) else default
  {
    Strings.SplitAfterSep(a, rest, '.');
  }

  /** A document that is not a mapping (a list or a scalar) gives the default for every key. */
  lemma {:induction false} NonMappingGivesDefault(doc: Value, key: string, default: Value)
    requires !doc.Mapping?
    ensures Get(doc, key, default) == default
  {
  }

  /** The empty document, which an empty file loads as, gives the default for every key. */
  lemma {:induction false} EmptyDocumentGivesDefault(key: string, default: Value)
    ensures Get(EmptyMapping, key, default) == default
  {
  }

  /** A document holding the `audio.preferredcodec` key the loader's docstring names: `{"audio": {"preferredcodec": "mp3"}}`. */
  function AudioDoc(): Value
  {
    Mapping(map["audio" := Mapping(map["preferredcodec" := Str("mp3")])])
  }

  /**
   * A two-segment key `a.b` reaches the value stored under `b` inside the
   * mapping stored under `a`, as `audio.preferredcodec` reaches `"mp3"`.
   */
  lemma {:induction false} GetNested(a: string, b: string, v: Value, default: Value)
    requires '.' !in a && '.' !in b
    ensures Get(Mapping(map[a := Mapping(map[b := v])]), a + "." + b, default) == v
  {
    var inner := Mapping(map[b := v]);
    assert Get(inner, b, default) == v by {
      Strings.SplitNoSep(b, '.');
      assert Lookup(v, [b][1..], default) == v;
    }
    GetDotted(Mapping(map[a := inner]), a, b, default);
  }

  /** A missing last segment gives the supplied default. */
  lemma GetExampleMissingLeaf()
    ensures Get(AudioDoc(), "audio.missing", Int(192)) == Int(192)
  {
    assert "audio.missing" == "audio" + "." + "missing";
    GetDotted(AudioDoc(), "audio", "missing", Int(192));
    Strings.SplitNoSep("missing", '.');
  }

  /** A missing first segment gives the default, here `None`. */
  lemma GetExampleMissingRoot()
    ensures Get(AudioDoc(), "missing.nested.path", Null) == Null
  {
    assert "missing.nested.path" == "missing" + "." + "nested.path";
    GetDotted(AudioDoc(), "missing", "nested.path", Null);
  }

  /** The loop of `get_config`: split the key, then descend one segment at a time or return the default. */
  method Walk(doc: Value, key: string, default: Value) returns (r: Value)
    ensures r == Get(doc, key, default)
  {
    var parts := Strings.Split(key, '.');
    var node := doc;
    var i := 0;
    while i < |parts|
      invariant 0 <= i <= |parts|
      invariant Lookup(node, parts[i..], default) == Lookup(doc, parts, default)
    {
      var part := parts[i];
      if node.Mapping? && part in node.entries {
        node := node.entries[part];
      } else {
        return default;
      }
      i := i + 1;
    }
    return node;
  }

  /** The process-wide cache `_config_cache` with the two public operations. */
  class ConfigStore {
    var cache: Option<Value>

    /** A fresh interpreter session: nothing loaded yet. */
    constructor ()
      ensures cache == None
    {
      cache := None;
    }

    /** `load_config(path)`, with the answers of the file system and the parser in `req`. */
    method Load(req: Request) returns (r: Result<Value, ConfigError>)
      modifies this
      ensures LoadOutcome(r, cache) == LoadStep(old(cache), req)
    {
      if cache.Some? {
        return Success(cache.value);
      }
      if !req.fileExists {
        return Failure(NotFound(req.path));
      }
      match req.parsed {
        case None =>
          return Failure(ParseError(req.path));
        case Some(doc) =>
          cache := Some(if Truthy(doc) then doc else EmptyMapping);
          r := Success(cache.value);
      }
    }

    /**
     * `get_config(key, default, _config=override)`. With an explicit document
     * the cache is neither read nor written; without one, `load_config()` runs
     * first on the default path (whose answers are `fileExists` and `parsed`)
     * and its error, if any, propagates.
     */
    method GetConfig(key: string, default: Value, override: Option<Value>, fileExists: bool, parsed: Option<Value>)
      returns (r: Result<Value, ConfigError>)
      modifies this
      ensures override.Some? ==> cache == old(cache) && r == Success(Get(override.value, key, default))
      ensures override.None? ==>
        var o := LoadStep(old(cache), Request(DefaultPath, fileExists, parsed));
        && cache == o.cache
        && r == (if o.result.Success? then Success(Get(o.result.value, key, default)) else o.result)
    {
      var doc: Value;
      if override.Some? {
        doc := override.value;
      } else {
        var loaded := Load(Request(DefaultPath, fileExists, parsed));
        if loaded.Failure? {
          return loaded;
        }
        doc := loaded.value;
      }
      var v := Walk(doc, key, default);
      r := Success(v);
    }
  }
}
