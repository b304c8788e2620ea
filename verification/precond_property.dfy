/** The property names and kinds of the driver's older `precond` parser.
    Two names are spelled differently from the other parsers'
    (`Ownninig`, `UnReachable`), so the usual spellings are not
    recognised. */
module PrecondProperty {

  datatype Kind = Precond | Hazard | Option

  /** The string literal a kind is written as. */
  function KindToken(k: Kind): (s: string)
    ensures s in {"precond", "hazard", "option"}
  {
    match k
    case Precond => "precond"
    case Hazard => "hazard"
    case Option => "option"
  }

  /** Different kinds are written differently. */
  lemma KindTokensDistinct(a: Kind, b: Kind)
    ensures KindToken(a) == KindToken(b) <==> a == b
  {
  }

  datatype PropertyName =
    | Align | Size | NoPadding | NotNull | Allocated | InBound | NotOverlap
    | ValidNum | ValidString | ValidCStr | Init | Unwrap | Typed | Ownninig
    | Alias | Alive | Pinned | NotVolatile | Opened | Trait | UnReachable
    | Unknown

  /** `to_str`. */
  function ToStr(p: PropertyName): string {
    match p
    case Align => "Align" case Size => "Size" case NoPadding => "NoPadding"
    case NotNull => "NotNull" case Allocated => "Allocated" case InBound => "InBound"
    case NotOverlap => "NotOverlap" case ValidNum => "ValidNum" case ValidString => "ValidString"
    case ValidCStr => "ValidCStr" case Init => "Init" case Unwrap => "Unwrap"
    case Typed => "Typed" case Ownninig => "Ownninig" case Alias => "Alias"
    case Alive => "Alive" case Pinned => "Pinned" case NotVolatile => "NotVolatile"
    case Opened => "Opened" case Trait => "Trait" case UnReachable => "UnReachable"
    case Unknown => "Unknown"
  }

  /** `PropertyName::new`: a name `to_str` produces is read back as itself,
      and every other string as `Unknown`. */
  function New(s: string): (r: PropertyName)
    ensures r != Unknown ==> ToStr(r) == s
  {
    match s
    case "Align" => Align case "Size" => Size case "NoPadding" => NoPadding
    case "NotNull" => NotNull case "Allocated" => Allocated case "InBound" => InBound
    case "NotOverlap" => NotOverlap case "ValidNum" => ValidNum case "ValidString" => ValidString
    case "ValidCStr" => ValidCStr case "Init" => Init case "Unwrap" => Unwrap
    case "Typed" => Typed case "Ownninig" => Ownninig case "Alias" => Alias
    case "Alive" => Alive case "Pinned" => Pinned case "NotVolatile" => NotVolatile
    case "Opened" => Opened case "Trait" => Trait case "UnReachable" => UnReachable
    case _ => Unknown
  }

  /** Every name, the misspelt ones included, survives printing and reading
      back. */
  lemma NameRoundTrip(p: PropertyName)
    ensures New(ToStr(p)) == p
  {
  }

  /** A string is read as a known name exactly when it is that name's text. */
  lemma NewRecognises(s: string)
    ensures New(s) != Unknown <==> exists p :: p != Unknown && ToStr(p) == s
  {
    if exists p :: p != Unknown && ToStr(p) == s {
      var p :| p != Unknown && ToStr(p) == s;
      NameRoundTrip(p);
    }
  }

  /** The spellings the other parsers use for these two names are unknown
      here. */
  lemma UsualSpellingsUnknown()
    ensures New("Owning") == Unknown && New("Unreachable") == Unknown
    ensures ToStr(Ownninig) != "Owning" && ToStr(UnReachable) != "Unreachable"
  {
  }
}
