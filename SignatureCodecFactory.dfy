/**
 * The lookup half of gnu.java.security.sig.SignatureCodecFactory: turning a
 * possibly composed, case-insensitive name `algorithm["/" format]` into one of
 * the five signature codecs the factory knows, or into nothing (Java's null).
 *
 * The factory reads three things it does not define; here they are inputs:
 * the constants of gnu.java.security.Registry (a `Registry` value),
 * FormatUtil.getFormatID (a `FormatIdResolver`), and, for the catalog in
 * SignatureCodecCatalog, the digest names of HashFactory.getNames.
 */
module SignatureCodecFactory {
  import opened Wrappers
  import opened JavaStrings

  /** The signature algorithm families (FIPS 186 DSS; RSASSA-PKCS1-v1_5 and RSASSA-PSS of RFC 8017). */
  datatype Family = DSS | RSAPKCS1v15 | RSAPSS

  /** The two encoding formats the factory dispatches on. */
  datatype Format = Raw | X509

  /** The five codec classes the factory can instantiate, as tags. */
  datatype Codec = DSSRaw | DSSX509 | RSAPKCS1v15Raw | RSAPKCS1v15X509 | RSAPSSRaw {

    function AlgorithmFamily(): Family {
      match this
      case DSSRaw | DSSX509 => DSS
      case RSAPKCS1v15Raw | RSAPKCS1v15X509 => RSAPKCS1v15
      case RSAPSSRaw => RSAPSS
    }

    function EncodingFormat(): Format {
      match this
      case DSSRaw | RSAPKCS1v15Raw | RSAPSSRaw => Raw
      case DSSX509 | RSAPKCS1v15X509 => X509
    }
  }

  /**
   * The codec of a family in a format: every pair has one except RSA-PSS in
   * X.509, which the factory deliberately lacks.
   */
  function CodecFor(family: Family, format: Format): (r: Option<Codec>)
    ensures r.None? <==> family == RSAPSS && format == X509
    ensures r.Some? ==> r.value.AlgorithmFamily() == family && r.value.EncodingFormat() == format
  {
    match (family, format)
    case (DSS, Raw) => Some(DSSRaw)
    case (DSS, X509) => Some(DSSX509)
    case (RSAPKCS1v15, Raw) => Some(RSAPKCS1v15Raw)
    case (RSAPKCS1v15, X509) => Some(RSAPKCS1v15X509)
    case (RSAPSS, Raw) => Some(RSAPSSRaw)
    case (RSAPSS, X509) => None
  }

  /** A codec exactly when both the family and the format are known. */
  function Lookup(family: Option<Family>, format: Option<Format>): Option<Codec> {
    if family.Some? && format.Some? then CodecFor(family.value, format.value) else None
  }

  /** The constants of gnu.java.security.Registry that the factory reads. */
  datatype Registry = Registry(
    dsaSig: string,                  // Registry.DSA_SIG
    dssSig: string,                  // Registry.DSS_SIG
    rsaPkcs1V15Sig: string,          // Registry.RSA_PKCS1_V1_5_SIG
    rsaPssSig: string,               // Registry.RSA_PSS_SIG
    rawEncodingId: int,              // Registry.RAW_ENCODING_ID
    x509EncodingId: int,             // Registry.X509_ENCODING_ID
    rawEncodingShortName: string,    // Registry.RAW_ENCODING_SHORT_NAME
    x509EncodingShortName: string)   // Registry.X509_ENCODING_SORT_NAME
  {
    /**
     * What the factory takes for granted about the constants: 0 is the
     * "unknown format" answer of getFormatID, the two case labels of the
     * switch differ, and the RSA prefixes are compared against lower-cased
     * names, so they are lower case themselves.
     */
    predicate Valid() {
      rawEncodingId != 0 && x509EncodingId != 0 && rawEncodingId != x509EncodingId
      && IsLowerCase(rsaPkcs1V15Sig) && IsLowerCase(rsaPssSig)
    }
  }

  /** FormatUtil.getFormatID: a numeric format identifier for a format name, 0 when unknown. */
  type FormatIdResolver = Option<string> -> int

  /** The format a numeric identifier selects in the switch of getInstance(String, int). */
  function FormatOfId(reg: Registry, formatId: int): Option<Format> {
    if formatId == reg.rawEncodingId then Some(Raw)
    else if formatId == reg.x509EncodingId then Some(X509)
    else None
  }

  predicate IsDsaOrDss(reg: Registry, name: string) {
    EqualsIgnoreCase(name, reg.dsaSig) || EqualsIgnoreCase(name, reg.dssSig)
  }

  /**
   * The algorithm family a trimmed algorithm name denotes: DSS when it is
   * the DSA or the DSS name up to case; otherwise RSA-PKCS1-v1.5 when its
   * lower-case form starts with that prefix, which is tried before the
   * RSA-PSS prefix; otherwise RSA-PSS on that prefix; otherwise none.
   * Everything here depends on the lower-case form of the name only.
   */
  function FamilyOf(reg: Registry, name: string): (r: Option<Family>)
    ensures r == Some(DSS) <==> ToLower(name) == ToLower(reg.dsaSig) || ToLower(name) == ToLower(reg.dssSig)
    ensures r == Some(RSAPKCS1v15) <==> r != Some(DSS) && StartsWith(ToLower(name), reg.rsaPkcs1V15Sig)
    ensures r == Some(RSAPSS) <==>
              r != Some(DSS) && !StartsWith(ToLower(name), reg.rsaPkcs1V15Sig) && StartsWith(ToLower(name), reg.rsaPssSig)
  {
    EqualsIgnoreCaseIsLowerEquality(name, reg.dsaSig);
    EqualsIgnoreCaseIsLowerEquality(name, reg.dssSig);
    if IsDsaOrDss(reg, name) then Some(DSS)
    else
      var lower := ToLower(name);
      if StartsWith(lower, reg.rsaPkcs1V15Sig) then Some(RSAPKCS1v15)
      else if StartsWith(lower, reg.rsaPssSig) then Some(RSAPSS)
      else None
  }

  /** getRawCodec: the Raw codec of the family of a trimmed name. */
  function GetRawCodec(reg: Registry, name: string): (r: Option<Codec>)
    ensures r == Lookup(FamilyOf(reg, name), Some(Raw))
  {
    if IsDsaOrDss(reg, name) then Some(DSSRaw)
    else
      var lower := ToLower(name);
      if StartsWith(lower, reg.rsaPkcs1V15Sig) then Some(RSAPKCS1v15Raw)
      else if StartsWith(lower, reg.rsaPssSig) then Some(RSAPSSRaw)
      else None
  }

  /** getX509Codec: the X.509 codec of the family of a trimmed name; there is none for RSA-PSS. */
  function GetX509Codec(reg: Registry, name: string): (r: Option<Codec>)
    ensures r == Lookup(FamilyOf(reg, name), Some(X509))
  {
    if IsDsaOrDss(reg, name) then Some(DSSX509)
    else
      var lower := ToLower(name);
      if StartsWith(lower, reg.rsaPkcs1V15Sig) then Some(RSAPKCS1v15X509)
      else None
  }

  /**
   * getInstance(String name, int formatID): nothing for a null name or an
   * identifier other than the Raw and X.509 ones; otherwise the codec of the
   * family of the trimmed name in the selected format.
   */
  function GetInstanceWithId(reg: Registry, name: Option<string>, formatId: int): (r: Option<Codec>)
    ensures name.None? || FormatOfId(reg, formatId).None? ==> r.None?
    ensures name.Some? ==> r == Lookup(FamilyOf(reg, Trim(name.value)), FormatOfId(reg, formatId))
  {
    if name.None? then None
    else
      var n := Trim(name.value);
      if formatId == reg.rawEncodingId then GetRawCodec(reg, n)
      else if formatId == reg.x509EncodingId then GetX509Codec(reg, n)
      else None
  }

  /**
   * getInstance(String name, String format): nothing when the format name is
   * unknown (identifier 0); otherwise the codec for the family of the trimmed
   * name in the format the identifier selects.
   */
  function GetInstanceWithFormat(reg: Registry, formatIdOf: FormatIdResolver, name: Option<string>, format: Option<string>)
    : (r: Option<Codec>)
    ensures formatIdOf(format) == 0 || name.None? ==> r.None?
    ensures formatIdOf(format) != 0 && name.Some? ==>
              r == Lookup(FamilyOf(reg, Trim(name.value)), FormatOfId(reg, formatIdOf(format)))
  {
    var formatId := formatIdOf(format);
    if formatId == 0 then None
    else GetInstanceWithId(reg, name, formatId)
  }

  /** The three outcomes of reading a trimmed composed name. */
  datatype ComposedName =
    | Malformed                                         // empty, or no algorithm before the separator
    | AlgorithmOnly(algorithm: string)                  // no format: the Raw format is meant
    | AlgorithmAndFormat(algorithm: string, format: string)

  /**
   * How getInstance(String) reads a trimmed name: empty or starting with the
   * separator is malformed; one trailing separator is dropped and the rest
   * is the algorithm name, unsplit; a name without a separator is all
   * algorithm; otherwise the first separator divides algorithm from format.
   * The pieces always reassemble into the name.
   */
  function SplitComposedName(n: string): (r: ComposedName)
    ensures r.Malformed? <==> n == [] || n[0] == '/'
    ensures r.AlgorithmOnly? ==> n == r.algorithm + "/" || (n == r.algorithm && '/' !in n)
    ensures r.AlgorithmAndFormat? ==>
              n == r.algorithm + "/" + r.format && r.algorithm != [] && '/' !in r.algorithm
              && r.format != [] && r.format[|r.format| - 1] != '/'
  {
    if |n| == 0 then Malformed
    else if StartsWith(n, "/") then Malformed
    else if EndsWith(n, "/") then AlgorithmOnly(n[..|n| - 1])
    else match IndexOf(n, '/')
      case None => AlgorithmOnly(n)
      case Some(i) =>
        assert n == n[..i] + "/" + n[i + 1..];
        AlgorithmAndFormat(n[..i], n[i + 1..])
  }

  /**
   * getInstance(String name): nothing for a null name, a name that is empty
   * once trimmed, or a trimmed name starting with the separator; a trailing
   * separator or no separator at all selects the Raw format; otherwise the
   * name is cut at its first separator into algorithm and format names.
   */
  function GetInstance(reg: Registry, formatIdOf: FormatIdResolver, name: Option<string>): (r: Option<Codec>)
    ensures name.None? ==> r.None?
    ensures name.Some? && (Trim(name.value) == [] || StartsWith(Trim(name.value), "/")) ==> r.None?
  {
    if name.None? then None
    else match SplitComposedName(Trim(name.value))
      case Malformed => None
      case AlgorithmOnly(algorithm) => GetInstanceWithId(reg, Some(algorithm), reg.rawEncodingId)
      case AlgorithmAndFormat(algorithm, format) => GetInstanceWithFormat(reg, formatIdOf, Some(algorithm), Some(format))
  }

  // ---------------------------------------------------------------------------
  // Reading composed names: composing and then splitting gives the pieces back.

  lemma SplitNameWithoutSeparator(a: string)
    requires a != [] && '/' !in a
    ensures SplitComposedName(a) == AlgorithmOnly(a)
  {
    assert a[|a| - 1] in a;
  }

  lemma SplitTrailingSeparator(a: string)
    requires a != [] && a[0] != '/'
    ensures SplitComposedName(a + "/") == AlgorithmOnly(a)
  {
    var n := a + "/";
    assert n[0] == a[0] && n[..|n| - 1] == a;
  }

  lemma SplitAtFirstSeparator(a: string, b: string)
    requires a != [] && '/' !in a
    requires b != [] && b[|b| - 1] != '/'
    ensures SplitComposedName(a + "/" + b) == AlgorithmAndFormat(a, b)
  {
    var n := a + "/" + b;
    assert n == a + ['/'] + b;
    IndexOfAfter(a, '/', b);
    assert n[0] == a[0] && n[|n| - 1] == b[|b| - 1];
    SplitAtIndex(n, |a|);
    assert n[..|a|] == a && n[|a| + 1..] == b;
  }

  /** Two readings that agree up to the case of their pieces. */
  predicate SameUpToCase(x: ComposedName, y: ComposedName) {
    match (x, y)
    case (Malformed, Malformed) => true
    case (AlgorithmOnly(a), AlgorithmOnly(b)) => ToLower(a) == ToLower(b)
    case (AlgorithmAndFormat(a, f), AlgorithmAndFormat(b, g)) => ToLower(a) == ToLower(b) && ToLower(f) == ToLower(g)
    case _ => false
  }

  lemma LowerCasePreservesSeparator(s: string, t: string, i: nat)
    requires ToLower(s) == ToLower(t) && i < |s|
    ensures s[i] == '/' <==> t[i] == '/'
  {
    assert ToLower(s)[i] == ToLower(t)[i];
  }

  lemma SplitEndingInSeparator(n: string)
    requires n != [] && n[0] != '/' && n[|n| - 1] == '/'
    ensures SplitComposedName(n) == AlgorithmOnly(n[..|n| - 1])
  {
  }

  lemma SplitIgnoresCaseTrailing(s: string, t: string)
    requires ToLower(s) == ToLower(t) && |s| > 0 && s[0] != '/' && t[0] != '/'
    requires s[|s| - 1] == '/' && t[|t| - 1] == '/'
    ensures SameUpToCase(SplitComposedName(s), SplitComposedName(t))
  {
    SplitEndingInSeparator(s);
    SplitEndingInSeparator(t);
    ToLowerPrefix(s, |s| - 1);
    ToLowerPrefix(t, |t| - 1);
  }

  lemma SplitAtIndex(n: string, i: nat)
    requires n != [] && n[0] != '/' && n[|n| - 1] != '/' && IndexOf(n, '/') == Some(i)
    ensures SplitComposedName(n) == AlgorithmAndFormat(n[..i], n[i + 1..])
  {
  }

  lemma LowerCasePiecesAgree(s: string, t: string, i: nat)
    requires ToLower(s) == ToLower(t) && i < |s|
    ensures ToLower(s[..i]) == ToLower(t[..i]) && ToLower(s[i + 1..]) == ToLower(t[i + 1..])
  {
    ToLowerPrefix(s, i);
    ToLowerPrefix(t, i);
    ToLowerSuffix(s, i + 1);
    ToLowerSuffix(t, i + 1);
  }

  lemma SplitIgnoresCaseInner(s: string, t: string)
    requires ToLower(s) == ToLower(t) && |s| > 0 && s[0] != '/' && t[0] != '/'
    requires s[|s| - 1] != '/' && t[|t| - 1] != '/'
    ensures SameUpToCase(SplitComposedName(s), SplitComposedName(t))
  {
    IndexOfToLower(s, '/');
    IndexOfToLower(t, '/');
    var k := IndexOf(s, '/');
    if k.None? {
      SplitNameWithoutSeparator(s);
      SplitNameWithoutSeparator(t);
    } else {
      var i := k.value;
      SplitAtIndex(s, i);
      SplitAtIndex(t, i);
      LowerCasePiecesAgree(s, t, i);
    }
  }

  /** Names that agree up to case are read into pieces that agree up to case. */
  lemma SplitIgnoresCase(s: string, t: string)
    requires ToLower(s) == ToLower(t)
    ensures SameUpToCase(SplitComposedName(s), SplitComposedName(t))
  {
    if |s| > 0 {
      LowerCasePreservesSeparator(s, t, 0);
      LowerCasePreservesSeparator(s, t, |s| - 1);
      if s[0] != '/' {
        if s[|s| - 1] == '/' {
          SplitIgnoresCaseTrailing(s, t);
        } else {
          SplitIgnoresCaseInner(s, t);
        }
      }
    }
  }

  // ---------------------------------------------------------------------------
  // Properties of the lookup.

  /** getInstance(String) hands the pieces of its reading to the other two overloads. */
  lemma ReadAsMalformed(reg: Registry, formatIdOf: FormatIdResolver, s: string)
    requires SplitComposedName(Trim(s)).Malformed?
    ensures GetInstance(reg, formatIdOf, Some(s)) == None
  {
  }

  lemma ReadAsAlgorithmOnly(reg: Registry, formatIdOf: FormatIdResolver, s: string, a: string)
    requires SplitComposedName(Trim(s)) == AlgorithmOnly(a)
    ensures GetInstance(reg, formatIdOf, Some(s)) == GetInstanceWithId(reg, Some(a), reg.rawEncodingId)
  {
  }

  lemma ReadAsAlgorithmAndFormat(reg: Registry, formatIdOf: FormatIdResolver, s: string, a: string, f: string)
    requires SplitComposedName(Trim(s)) == AlgorithmAndFormat(a, f)
    ensures GetInstance(reg, formatIdOf, Some(s)) == GetInstanceWithFormat(reg, formatIdOf, Some(a), Some(f))
  {
  }

  /** A name without a separator resolves as the algorithm name in the Raw format. */
  lemma NoSeparatorMeansRaw(reg: Registry, formatIdOf: FormatIdResolver, s: string)
    requires '/' !in s && Trim(s) != []
    ensures GetInstance(reg, formatIdOf, Some(s)) == GetInstanceWithId(reg, Some(s), reg.rawEncodingId)
  {
    var n := Trim(s);
    if '/' in n {
      TrimKeepsOnlyOwnCharacters(s, '/');
    }
    SplitNameWithoutSeparator(n);
    ReadAsAlgorithmOnly(reg, formatIdOf, s, n);
    TrimmedIsUnchanged(n);
  }

  /**
   * Exactly one trailing separator is dropped and what remains is not split
   * again: "RSA-PSS-SHA256/X509/" resolves as the algorithm name
   * "RSA-PSS-SHA256/X509" in the Raw format.
   */
  lemma OneTrailingSeparatorDropped(reg: Registry, formatIdOf: FormatIdResolver, a: string)
    requires TrimLeading(a) != [] && TrimLeading(a)[0] != '/'
    ensures GetInstance(reg, formatIdOf, Some(a + "/")) == GetInstanceWithId(reg, Some(a), reg.rawEncodingId)
  {
    var left := TrimLeading(a);
    TrimEndingVisible(a, '/');
    SplitTrailingSeparator(left);
    ReadAsAlgorithmOnly(reg, formatIdOf, a + "/", left);
    TrimAfterTrimLeading(a);
  }

  /** Dropping the separator after an algorithm name changes nothing: "DSS/" means "DSS". */
  lemma TrailingSeparatorMeansRaw(reg: Registry, formatIdOf: FormatIdResolver, s: string)
    requires '/' !in s && Trim(s) != []
    ensures GetInstance(reg, formatIdOf, Some(s + "/")) == GetInstance(reg, formatIdOf, Some(s))
  {
    var left := TrimLeading(s);
    TrimLeadingDropsPrefix(s);
    assert left != [] && left[0] == s[|s| - |left|];
    TrimEndingVisible(s, '/');
    SplitTrailingSeparator(left);
    ReadAsAlgorithmOnly(reg, formatIdOf, s + "/", left);
    TrimAfterTrimLeading(s);
    NoSeparatorMeansRaw(reg, formatIdOf, s);
  }

  /** A composed name is cut at its first separator into the two names of getInstance(String, String). */
  lemma ComposedNameSplitsAtFirstSeparator(reg: Registry, formatIdOf: FormatIdResolver, a: string, b: string)
    requires '/' !in a && a != [] && !IsTrimmable(a[0])
    requires b != [] && !IsTrimmable(b[|b| - 1]) && b[|b| - 1] != '/'
    ensures GetInstance(reg, formatIdOf, Some(a + "/" + b)) == GetInstanceWithFormat(reg, formatIdOf, Some(a), Some(b))
  {
    var n := a + "/" + b;
    assert n[0] == a[0] && n[|n| - 1] == b[|b| - 1];
    TrimmedIsUnchanged(n);
    SplitAtFirstSeparator(a, b);
    ReadAsAlgorithmAndFormat(reg, formatIdOf, n, a, b);
  }

  /** Whitespace around an algorithm name never changes the codec it selects. */
  lemma PaddingIgnoredWithId(reg: Registry, w1: string, s: string, w2: string, formatId: int)
    requires AllTrimmable(w1) && AllTrimmable(w2)
    ensures GetInstanceWithId(reg, Some(w1 + s + w2), formatId) == GetInstanceWithId(reg, Some(s), formatId)
  {
    TrimPadded(w1, s, w2);
  }

  /** Whitespace around a composed name never changes the codec it selects. */
  lemma PaddingIgnored(reg: Registry, formatIdOf: FormatIdResolver, w1: string, s: string, w2: string)
    requires AllTrimmable(w1) && AllTrimmable(w2)
    ensures GetInstance(reg, formatIdOf, Some(w1 + s + w2)) == GetInstance(reg, formatIdOf, Some(s))
  {
    TrimPadded(w1, s, w2);
  }

  lemma FamilyOfDependsOnLowerCase(reg: Registry, a: string, b: string)
    requires ToLower(a) == ToLower(b)
    ensures FamilyOf(reg, a) == FamilyOf(reg, b)
  {
    var fa, fb := FamilyOf(reg, a), FamilyOf(reg, b);
    if fa.None? {
      assert fb.None?;
    }
  }

  /** Algorithm names that agree up to case select the same codec. */
  lemma CaseIgnoredWithId(reg: Registry, a: string, b: string, formatId: int)
    requires ToLower(a) == ToLower(b)
    ensures GetInstanceWithId(reg, Some(a), formatId) == GetInstanceWithId(reg, Some(b), formatId)
  {
    TrimToLower(a);
    TrimToLower(b);
    FamilyOfDependsOnLowerCase(reg, Trim(a), Trim(b));
  }

  /** A format resolver that, like FormatUtil.getFormatID, ignores the case of the format name. */
  ghost predicate FormatIdIgnoresCase(formatIdOf: FormatIdResolver) {
    forall f: string, g: string :: ToLower(f) == ToLower(g) ==> formatIdOf(Some(f)) == formatIdOf(Some(g))
  }

  lemma CaseIgnoredWithFormat(reg: Registry, formatIdOf: FormatIdResolver, a: string, b: string, f: string, g: string)
    requires ToLower(a) == ToLower(b) && formatIdOf(Some(f)) == formatIdOf(Some(g))
    ensures GetInstanceWithFormat(reg, formatIdOf, Some(a), Some(f)) == GetInstanceWithFormat(reg, formatIdOf, Some(b), Some(g))
  {
    CaseIgnoredWithId(reg, a, b, formatIdOf(Some(f)));
  }

  /** Composed names that agree up to case select the same codec: "dss/x509" means "DSS/X509". */
  lemma CaseIgnored(reg: Registry, formatIdOf: FormatIdResolver, a: string, b: string)
    requires FormatIdIgnoresCase(formatIdOf)
    requires ToLower(a) == ToLower(b)
    ensures GetInstance(reg, formatIdOf, Some(a)) == GetInstance(reg, formatIdOf, Some(b))
  {
    var s, t := Trim(a), Trim(b);
    TrimToLower(a);
    TrimToLower(b);
    SplitIgnoresCase(s, t);
    var y := SplitComposedName(t);
    match SplitComposedName(s)
    case Malformed =>
      ReadAsMalformed(reg, formatIdOf, a);
      ReadAsMalformed(reg, formatIdOf, b);
    case AlgorithmOnly(x) =>
      ReadAsAlgorithmOnly(reg, formatIdOf, a, x);
      ReadAsAlgorithmOnly(reg, formatIdOf, b, y.algorithm);
      CaseIgnoredWithId(reg, x, y.algorithm, reg.rawEncodingId);
    case AlgorithmAndFormat(x, f) =>
      ReadAsAlgorithmAndFormat(reg, formatIdOf, a, x, f);
      ReadAsAlgorithmAndFormat(reg, formatIdOf, b, y.algorithm, y.format);
      assert formatIdOf(Some(f)) == formatIdOf(Some(y.format));
      CaseIgnoredWithFormat(reg, formatIdOf, x, y.algorithm, f, y.format);
  }

  /** getInstance(String, String) answers nothing exactly for an unknown format name, and otherwise what getInstance(String, int) answers. */
  lemma FormatNameDelegatesToId(reg: Registry, formatIdOf: FormatIdResolver, name: Option<string>, format: Option<string>)
    ensures formatIdOf(format) == 0 ==> GetInstanceWithFormat(reg, formatIdOf, name, format) == None
    ensures formatIdOf(format) != 0 ==>
              GetInstanceWithFormat(reg, formatIdOf, name, format) == GetInstanceWithId(reg, name, formatIdOf(format))
  {
  }

  /**
   * getX509Codec accepts the names getRawCodec accepts except the RSA-PSS
   * ones, and picks the same family for them.
   */
  lemma X509CodecMirrorsRaw(reg: Registry, name: string)
    ensures GetX509Codec(reg, name).Some? <==> GetRawCodec(reg, name).Some? && GetRawCodec(reg, name) != Some(RSAPSSRaw)
    ensures GetX509Codec(reg, name).Some? ==>
              GetX509Codec(reg, name).value.AlgorithmFamily() == GetRawCodec(reg, name).value.AlgorithmFamily()
  {
  }

  /** An RSA-PSS name has a Raw codec and no X.509 codec. */
  lemma PssHasNoX509(reg: Registry, name: string)
    requires reg.Valid()
    requires FamilyOf(reg, Trim(name)) == Some(RSAPSS)
    ensures GetInstanceWithId(reg, Some(name), reg.x509EncodingId) == None
    ensures GetInstanceWithId(reg, Some(name), reg.rawEncodingId) == Some(RSAPSSRaw)
  {
  }
}
