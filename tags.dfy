/**
 * Element-type tag resolution: the `if (eltype == "bool") ... else if (eltype == "uint8") ...`
 * chains of the scalar and matrix branches of both loaders.
 */
module Tags {
  import opened Values

  /** The tags the chains test for, in the order they test them. */
  const KnownTags: seq<string> :=
    ["bool", "uint8", "uint16", "uint32", "uint64", "int8", "int16", "int32", "int64"]

  /** The reader's tag for a kind; Single and Double have no entry in the chains. */
  function TagName(k: Kind): string {
    match k
    case Logical => "bool"
    case UInt8 => "uint8"
    case UInt16 => "uint16"
    case UInt32 => "uint32"
    case UInt64 => "uint64"
    case Int8 => "int8"
    case Int16 => "int16"
    case Int32 => "int32"
    case Int64 => "int64"
    case Single => "float"
    case Double => "double"
  }

  /**
   * The kind a scalar or matrix with element tag `t` is loaded as. Exact,
   * case-sensitive comparison; every tag the chain does not name, "float" included,
   * falls through to Double.
   */
  function ResolveTag(t: string): (k: Kind)
    ensures k != Single
    ensures k == Double <==> t !in KnownTags
    ensures k != Double ==> TagName(k) == t
  {
    if t == "bool" then Logical
    else if t == "uint8" then UInt8
    else if t == "uint16" then UInt16
    else if t == "uint32" then UInt32
    else if t == "uint64" then UInt64
    else if t == "int8" then Int8
    else if t == "int16" then Int16
    else if t == "int32" then Int32
    else if t == "int64" then Int64
    else Double
  }

  /** Each of the nine named tags selects its own kind; Double is reached by its own name too. */
  lemma ResolveTagName(k: Kind)
    requires k != Single
    ensures ResolveTag(TagName(k)) == k
  {
  }

  /** Single-precision and differently cased tags are not recognised. */
  lemma UnrecognisedTagsAreDouble()
    ensures ResolveTag("float") == Double
    ensures ResolveTag("single") == Double
    ensures ResolveTag("double") == Double
    ensures ResolveTag("Bool") == Double
    ensures ResolveTag("UINT8") == Double
    ensures ResolveTag("") == Double
  {
  }
}
