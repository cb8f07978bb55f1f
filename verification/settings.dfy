/** The field validators of `AWSSettings`: the Athena output location, the
    S3 table-bucket (subcatalog) name, and the database and table names.
    Each validator either returns the (normalised) value or fails with the
    reason the source raises `ValueError` for. */
module Settings {
  import opened Wrappers
  import opened Text

  // ---------------------------------------------------------------------
  // athena_output_s3
  // ---------------------------------------------------------------------

  datatype S3UriError = MissingS3Scheme

  /** `_validate_s3_uri`: the uri must start with `s3://`; a trailing `/` is
      added when missing. */
  function ValidateS3Uri(v: string): (r: Result<string, S3UriError>)
    ensures r.Failure? <==> !StartsWith(v, "s3://")
    ensures r.Success? ==> StartsWith(r.value, v) && EndsWith(r.value, "/")
    ensures r.Success? ==> |r.value| <= |v| + 1 && StartsWith(r.value, "s3://")
    ensures r.Success? && EndsWith(v, "/") ==> r.value == v
  {
    if !StartsWith(v, "s3://") then Failure(MissingS3Scheme)
    else if EndsWith(v, "/") then Success(v)
    else Success(v + "/")
  }

  /** Normalising an already normalised uri changes nothing. */
  lemma S3UriIdempotent(v: string)
    requires ValidateS3Uri(v).Success?
    ensures ValidateS3Uri(ValidateS3Uri(v).value) == ValidateS3Uri(v)
  {
    var u := ValidateS3Uri(v).value;
    assert u[..5] == v[..5];
  }

  // ---------------------------------------------------------------------
  // The regular expressions at module level
  // ---------------------------------------------------------------------

  predicate IsLowerAlnum(c: char) {
    ('a' <= c <= 'z') || ('0' <= c <= '9')
  }

  /** `LOWER_NUM_HYPHEN.fullmatch(s) is not None`, i.e. `^[a-z0-9-]+$`. */
  predicate MatchesLowerNumHyphen(s: string) {
    |s| >= 1 && forall i :: 0 <= i < |s| ==> IsLowerAlnum(s[i]) || s[i] == '-'
  }

  /** `LOWER_NUM_UNDERSCORE.fullmatch(s) is not None`, i.e. `^[a-z0-9_]+$`. */
  predicate MatchesLowerNumUnderscore(s: string) {
    |s| >= 1 && forall i :: 0 <= i < |s| ==> IsLowerAlnum(s[i]) || s[i] == '_'
  }

  /** `START_END_ALNUM_LOWER.fullmatch(s) is not None`, i.e.
      `^[a-z0-9].*[a-z0-9]$`: two distinct boundary characters, so at least
      two characters, and `.` in between matches anything but a newline. */
  predicate MatchesStartEndAlnum(s: string) {
    |s| >= 2 && IsLowerAlnum(s[0]) && IsLowerAlnum(s[|s| - 1]) &&
    forall i :: 0 < i < |s| - 1 ==> s[i] != '\n'
  }

  /** A name of letters, digits and hyphens has no `_` or `.`. */
  lemma NoUnderscoreOrPeriod(s: string)
    requires MatchesLowerNumHyphen(s)
    ensures '_' !in s && '.' !in s
  {
    forall i | 0 <= i < |s| ensures s[i] != '_' && s[i] != '.' {
      assert IsLowerAlnum(s[i]) || s[i] == '-';
    }
  }

  /** A name of letters, digits and underscores has no `-` or `.`. */
  lemma NoHyphenOrPeriod(s: string)
    requires MatchesLowerNumUnderscore(s)
    ensures '-' !in s && '.' !in s
  {
    forall i | 0 <= i < |s| ensures s[i] != '-' && s[i] != '.' {
      assert IsLowerAlnum(s[i]) || s[i] == '_';
    }
  }

  // ---------------------------------------------------------------------
  // subcatalog (S3 table-bucket name)
  // ---------------------------------------------------------------------

  datatype CatalogError =
    | CatalogLength
    | CatalogCharacters
    | CatalogBoundary
    | CatalogUnderscoreOrPeriod
    | CatalogReservedPrefix
    | CatalogReservedSuffix

  const ReservedBucketPrefixes: seq<string> := ["xn--", "sthree-", "amzn-s3-demo-", "aws"]
  const ReservedBucketSuffixes: seq<string> := ["-s3alias", "--ol-s3", "--x-s3", "--table-s3"]

  /** The table-bucket naming rules, stated directly on the characters. */
  predicate IsBucketName(name: string) {
    && 3 <= |name| <= 63
    && (forall i :: 0 <= i < |name| ==> IsLowerAlnum(name[i]) || name[i] == '-')
    && IsLowerAlnum(name[0]) && IsLowerAlnum(name[|name| - 1])
    && (forall p :: p in ReservedBucketPrefixes ==> !StartsWith(name, p))
    && (forall x :: x in ReservedBucketSuffixes ==> !EndsWith(name, x))
  }

  /** `_validate_catalog`: the checks in the source's order; the first that
      fails decides the error. */
  function ValidateCatalog(v: string): (r: Result<string, CatalogError>)
    ensures r.Success? <==> IsBucketName(Strip(v))
    ensures r.Success? ==> r.value == Strip(v)
    ensures r != Failure(CatalogUnderscoreOrPeriod)
  {
    var name := Strip(v);
    if !(3 <= |name| <= 63) then Failure(CatalogLength)
    else if !MatchesLowerNumHyphen(name) then Failure(CatalogCharacters)
    else if !MatchesStartEndAlnum(name) then Failure(CatalogBoundary)
    else
      NoUnderscoreOrPeriod(name);
      if '_' in name || '.' in name then Failure(CatalogUnderscoreOrPeriod)
    else if exists p :: p in ReservedBucketPrefixes && StartsWith(name, p) then
      Failure(CatalogReservedPrefix)
    else if exists x :: x in ReservedBucketSuffixes && EndsWith(name, x) then
      Failure(CatalogReservedSuffix)
    else Success(name)
  }

  // ---------------------------------------------------------------------
  // database and table_name
  // ---------------------------------------------------------------------

  /** Which settings field `_validate_identifiers` is checking. */
  datatype IdentifierField = Database | TableName

  datatype IdentifierError =
    | IdentifierLength
    | IdentifierCharacters
    | IdentifierBoundary
    | IdentifierHyphenOrPeriod
    | DatabaseReservedPrefix

  /** The namespace and table naming rules as the validator enforces them:
      the boundary pattern makes two characters the real minimum. */
  predicate IsIdentifier(name: string, field: IdentifierField) {
    && 2 <= |name| <= 255
    && (forall i :: 0 <= i < |name| ==> IsLowerAlnum(name[i]) || name[i] == '_')
    && IsLowerAlnum(name[0]) && IsLowerAlnum(name[|name| - 1])
    && (field == Database ==> !StartsWith(name, "aws"))
  }

  /** `_validate_identifiers`. */
  function ValidateIdentifier(v: string, field: IdentifierField): (r: Result<string, IdentifierError>)
    ensures r.Success? <==> IsIdentifier(Strip(v), field)
    ensures r.Success? ==> r.value == Strip(v)
    ensures r != Failure(IdentifierHyphenOrPeriod)
  {
    var name := Strip(v);
    if !(1 <= |name| <= 255) then Failure(IdentifierLength)
    else if !MatchesLowerNumUnderscore(name) then Failure(IdentifierCharacters)
    else if !MatchesStartEndAlnum(name) then Failure(IdentifierBoundary)
    else
      NoHyphenOrPeriod(name);
      if '-' in name || '.' in name then Failure(IdentifierHyphenOrPeriod)
    else if field == Database && StartsWith(name, "aws") then Failure(DatabaseReservedPrefix)
    else Success(name)
  }

  /** The length check admits one character, but the boundary pattern then
      rejects every one-character name that has the right characters. */
  lemma OneCharacterIdentifierRejected(v: string, field: IdentifierField)
    requires |Strip(v)| == 1
    ensures ValidateIdentifier(v, field) ==
              Failure(if MatchesLowerNumUnderscore(Strip(v)) then IdentifierBoundary
                      else IdentifierCharacters)
  {
  }

  /** The two fields differ only in the reserved `aws` prefix of databases. */
  lemma DatabaseStricterThanTable(v: string)
    ensures ValidateIdentifier(v, Database).Success? <==>
              ValidateIdentifier(v, TableName).Success? && !StartsWith(Strip(v), "aws")
  {
  }
}
