/**
 * Reading the configuration (`internal/common/config.go`): after the read
 * and the JSON decoding, every empty field adds its own sentinel error, in
 * field order, and the collected errors print as a bullet list.
 */
module Config {
  import opened Wrappers
  import opened Strings

  datatype Config = Config(key: string, zotero: string, storage: string)

  /** The three sentinel errors, one per field that must be set. */
  datatype Sentinel = EmptyKey | EmptyZotero | EmptyStorage

  const EmptyMsg := "is empty in config"

  /** The message of a sentinel: the field name, a space and `EmptyMsg`. */
  function SentinelText(e: Sentinel): string
  {
    match e
    case EmptyKey => "key " + EmptyMsg
    case EmptyZotero => "zotero " + EmptyMsg
    case EmptyStorage => "storage " + EmptyMsg
  }

  /** The position of a sentinel's field in the checking order. */
  function Rank(e: Sentinel): nat
  {
    match e
    case EmptyKey => 0
    case EmptyZotero => 1
    case EmptyStorage => 2
  }

  /** Whether the field a sentinel stands for is empty in `c`. */
  predicate Empty(c: Config, e: Sentinel)
  {
    match e
    case EmptyKey => c.key == ""
    case EmptyZotero => c.zotero == ""
    case EmptyStorage => c.storage == ""
  }

  /** What the reader yields: a read failure, malformed JSON, or a decoded configuration. */
  datatype Input = ReadFailure(cause: string) | Malformed(cause: string) | Decoded(config: Config)

  /** The errors of `loadConfigReader`: the read's, the decoder's, or the collected sentinels (`ErrConfig`). */
  datatype LoadError = ReadError(cause: string) | DecodeError(cause: string) | Invalid(errors: seq<Sentinel>)

  /** No field is empty. */
  predicate Complete(c: Config)
  {
    c.key != "" && c.zotero != "" && c.storage != ""
  }

  /**
   * `loadConfigReader`: read and decode errors come back before any check;
   * then each empty field adds its sentinel, and any sentinel makes the
   * result an error. The decoded configuration is returned either way.
   */
  method LoadConfigReader(input: Input) returns (config: Config, err: Option<LoadError>)
    ensures input.ReadFailure? ==> err == Some(ReadError(input.cause)) && config == Config("", "", "")
    ensures input.Malformed? ==> err == Some(DecodeError(input.cause)) && config == Config("", "", "")
    ensures input.Decoded? ==> config == input.config
    ensures input.Decoded? ==> (err.None? <==> Complete(config))
    ensures input.Decoded? && err.Some? ==>
      err.value.Invalid?
      && (forall e :: e in err.value.errors <==> Empty(config, e))
      && (forall i, j :: 0 <= i < j < |err.value.errors| ==> Rank(err.value.errors[i]) < Rank(err.value.errors[j]))
  {
    config := Config("", "", "");
    match input {
      case ReadFailure(cause) =>
        return config, Some(ReadError(cause));
      case Malformed(cause) =>
        return config, Some(DecodeError(cause));
      case Decoded(c) =>
        config := c;
    }
    var errors: seq<Sentinel> := [];
    if config.key == "" {
      errors := errors + [EmptyKey];
    }
    if config.zotero == "" {
      errors := errors + [EmptyZotero];
    }
    if config.storage == "" {
      errors := errors + [EmptyStorage];
    }
    err := None;
    if |errors| > 0 {
      err := Some(Invalid(errors));
    }
  }

  /** `{}` decodes to empty fields and yields all three sentinels, in field order. */
  method EmptyObjectExample() returns (err: Option<LoadError>)
    ensures err == Some(Invalid([EmptyKey, EmptyZotero, EmptyStorage]))
  {
    var c, e := LoadConfigReader(Decoded(Config("", "", "")));
    assert e.Some? && e.value.Invalid?;
    var errors := e.value.errors;
    assert EmptyKey in errors && EmptyZotero in errors && EmptyStorage in errors;
    assert |errors| == 3 by {
      assert forall i :: 0 <= i < |errors| ==> Rank(errors[i]) <= 2;
      OrderedLength(errors);
    }
    OrderedExact(errors);
    err := e;
  }

  /** The sentinel at position `i` of a strictly increasing list has rank at least `i`. */
  lemma {:induction false} RankAtLeast(errors: seq<Sentinel>, i: nat)
    requires i < |errors|
    requires forall i, j :: 0 <= i < j < |errors| ==> Rank(errors[i]) < Rank(errors[j])
    ensures Rank(errors[i]) >= i
  {
    if i > 0 {
      RankAtLeast(errors, i - 1);
    }
  }

  /** Sentinels in strictly increasing field order number at most three. */
  lemma OrderedLength(errors: seq<Sentinel>)
    requires forall i, j :: 0 <= i < j < |errors| ==> Rank(errors[i]) < Rank(errors[j])
    ensures |errors| <= 3
  {
    if errors != [] {
      RankAtLeast(errors, |errors| - 1);
    }
  }

  /** Three sentinels in strictly increasing field order are key, zotero, storage. */
  lemma OrderedExact(errors: seq<Sentinel>)
    requires |errors| == 3
    requires forall i, j :: 0 <= i < j < |errors| ==> Rank(errors[i]) < Rank(errors[j])
    ensures errors == [EmptyKey, EmptyZotero, EmptyStorage]
  {
    assert Rank(errors[0]) < Rank(errors[1]) < Rank(errors[2]);
  }

  /** The lines of an `ErrConfig` message, one bullet per error. */
  function Bullets(errors: seq<Sentinel>): (r: seq<string>)
    ensures |r| == |errors|
    ensures forall i :: 0 <= i < |r| ==> r[i] == "- " + SentinelText(errors[i])
  {
    seq(|errors|, i requires 0 <= i < |errors| => "- " + SentinelText(errors[i]))
  }

  /** `ErrConfig.Error`: the bullets joined by newlines. */
  method ErrConfigText(errors: seq<Sentinel>) returns (s: string)
    ensures s == Join(Bullets(errors), "\n")
  {
    var ss: seq<string> := [];
    for k := 0 to |errors|
      invariant ss == Bullets(errors)[..k]
    {
      ss := ss + ["- " + SentinelText(errors[k])];
    }
    assert Bullets(errors)[..|errors|] == Bullets(errors);
    s := Join(ss, "\n");
  }

  /** A sentinel message fits on one line. */
  lemma SentinelOneLine(e: Sentinel)
    ensures '\n' !in SentinelText(e)
  {
    var t := SentinelText(e);
    match e {
      case EmptyKey => assert t == "key " + EmptyMsg;
      case EmptyZotero => assert t == "zotero " + EmptyMsg;
      case EmptyStorage => assert t == "storage " + EmptyMsg;
    }
  }

  /** The message splits back at the newlines into one "- "-prefixed line per error. */
  lemma ErrConfigLines(errors: seq<Sentinel>)
    requires errors != []
    ensures Split(Join(Bullets(errors), "\n"), '\n') == Bullets(errors)
  {
    var b := Bullets(errors);
    forall i | 0 <= i < |b|
      ensures '\n' !in b[i]
    {
      SentinelOneLine(errors[i]);
      assert b[i] == "- " + SentinelText(errors[i]);
    }
    SplitJoin(b, '\n');
  }
}
