/** The credential pair used to open a storage session, and the validator that
    turns the process's command-line arguments into one. */
module ConnectionCredentials {
  import opened JavaLang

  /** An application key id and its secret. */
  datatype ConnectionCredentials = ConnectionCredentials(applicationKeyId: JString, applicationKey: JString)

  /** Blank in the sense of the commons-lang `isBlank`: `null`, empty, or made
      only of whitespace. Which code units count as whitespace belongs to a
      library outside this model, so the classification is a parameter. */
  predicate IsBlank(s: Option<JString>, isWhitespace: Char16 -> bool)
  {
    match s
    case None => true
    case Some(t) => forall i | 0 <= i < |t| :: isWhitespace(t[i])
  }

  /** What a usable credential pair looks like: both halves non-blank. */
  predicate Valid(c: ConnectionCredentials, isWhitespace: Char16 -> bool)
  {
    !IsBlank(Some(c.applicationKeyId), isWhitespace) && !IsBlank(Some(c.applicationKey), isWhitespace)
  }

  /** The command-line validator. `args` is `None` for a `null` array and each
      element is `None` for a `null` string. Anything wrong gives `None`; the
      caller reports it. */
  function ConvertCommandLineToCredentials(args: Option<seq<Option<JString>>>, isWhitespace: Char16 -> bool)
    : (r: Option<ConnectionCredentials>)
    ensures r.Some? <==>
              && args.Some? && |args.value| >= 2
              && !IsBlank(args.value[0], isWhitespace)
              && !IsBlank(args.value[1], isWhitespace)
    ensures r.Some? ==>
              && args.value[0] == Some(r.value.applicationKeyId)
              && args.value[1] == Some(r.value.applicationKey)
  {
    if args.None? || |args.value| < 2 then
      None
    else if IsBlank(args.value[0], isWhitespace) || IsBlank(args.value[1], isWhitespace) then
      None
    else
      Some(ConnectionCredentials(args.value[0].value, args.value[1].value))
  }

  /** Whatever the validator hands out is usable. */
  lemma ConvertedCredentialsAreValid(args: Option<seq<Option<JString>>>, isWhitespace: Char16 -> bool)
    requires ConvertCommandLineToCredentials(args, isWhitespace).Some?
    ensures Valid(ConvertCommandLineToCredentials(args, isWhitespace).value, isWhitespace)
  {
  }

  /** Only the first two arguments are looked at. */
  lemma ExtraArgumentsIgnored(args: seq<Option<JString>>, extra: seq<Option<JString>>, isWhitespace: Char16 -> bool)
    requires |args| >= 2
    ensures ConvertCommandLineToCredentials(Some(args + extra), isWhitespace)
         == ConvertCommandLineToCredentials(Some(args[..2]), isWhitespace)
  {
  }

  /** An empty key id is refused whatever the secret and whatever counts as
      whitespace: `["", "secret"]` gives no credentials. */
  lemma EmptyKeyIdRefused(secret: Option<JString>, rest: seq<Option<JString>>, isWhitespace: Char16 -> bool)
    ensures ConvertCommandLineToCredentials(Some([Some([]), secret] + rest), isWhitespace).None?
  {
  }
}
