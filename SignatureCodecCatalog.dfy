/**
 * The catalog half of gnu.java.security.sig.SignatureCodecFactory: the set of
 * composed codec names that getNames builds once, from the Registry constants
 * and the digest names of HashFactory.getNames, and hands out on every call.
 */
module SignatureCodecCatalog {
  import opened Wrappers
  import opened JavaStrings
  import opened SignatureCodecFactory

  /** The two DSS entries: the DSS name in the Raw and in the X.509 format. */
  function DssNames(reg: Registry): set<string> {
    {reg.dssSig + "/" + reg.rawEncodingShortName, reg.dssSig + "/" + reg.x509EncodingShortName}
  }

  /**
   * The three entries a digest contributes: PKCS#1 v1.5 over it in both
   * formats, PSS over it in the Raw format only.
   */
  function DigestNames(reg: Registry, md: string): set<string> {
    {reg.rsaPkcs1V15Sig + "-" + md + "/" + reg.rawEncodingShortName,
     reg.rsaPkcs1V15Sig + "-" + md + "/" + reg.x509EncodingShortName,
     reg.rsaPssSig + "-" + md + "/" + reg.rawEncodingShortName}
  }

  /** The catalog over the digest names met so far, in the order they are visited. */
  function Catalog(reg: Registry, digests: seq<string>): (r: set<string>)
    ensures DssNames(reg) <= r
    decreases |digests|
  {
    if digests == [] then DssNames(reg)
    else Catalog(reg, digests[..|digests| - 1]) + DigestNames(reg, digests[|digests| - 1])
  }

  /**
   * The memoised catalog: `names` stays None until the first call of
   * GetNames and afterwards holds the one set every call returns.
   * `digestNames` is the iteration order of HashFactory.getNames.
   */
  class SignatureCodecNames {
    const registry: Registry
    const digestNames: seq<string>
    var names: Option<set<string>>

    ghost predicate Valid()
      reads this
    {
      names.Some? ==> names.value == Catalog(registry, digestNames)
    }

    constructor(registry: Registry, digestNames: seq<string>)
      ensures this.registry == registry && this.digestNames == digestNames
      ensures names == None
      ensures Valid()
    {
      this.registry := registry;
      this.digestNames := digestNames;
      names := None;
    }

    /**
     * getNames: builds the catalog when `names` is still None and stores it;
     * a later call finds it stored and returns it unchanged.
     */
    method GetNames() returns (r: set<string>)
      requires Valid()
      modifies this
      ensures Valid()
      ensures r == Catalog(registry, digestNames)
      ensures names == Some(r)
      ensures old(names).Some? ==> names == old(names)
    {
      if names.None? {
        var hs: set<string> := {};
        hs := hs + {registry.dssSig + "/" + registry.rawEncodingShortName};
        hs := hs + {registry.dssSig + "/" + registry.x509EncodingShortName};
        var i := 0;
        while i < |digestNames|
          invariant 0 <= i <= |digestNames|
          invariant hs == Catalog(registry, digestNames[..i])
        {
          var mdName := digestNames[i];
          var name := registry.rsaPkcs1V15Sig + "-" + mdName;
          hs := hs + {name + "/" + registry.rawEncodingShortName};
          hs := hs + {name + "/" + registry.x509EncodingShortName};
          name := registry.rsaPssSig + "-" + mdName;
          hs := hs + {name + "/" + registry.rawEncodingShortName};
          assert digestNames[..i + 1][..i] == digestNames[..i];
          i := i + 1;
        }
        assert digestNames[..i] == digestNames;
        names := Some(hs);
      }
      r := names.value;
    }
  }

  // ---------------------------------------------------------------------------
  // What the catalog holds.

  /** A name is in the catalog exactly when it is a DSS entry or an entry of one of the digests. */
  lemma {:induction false} CatalogMembership(reg: Registry, digests: seq<string>, n: string)
    ensures n in Catalog(reg, digests) <==>
              n in DssNames(reg) || exists j :: 0 <= j < |digests| && n in DigestNames(reg, digests[j])
    decreases |digests|
  {
    if digests != [] {
      var prefix := digests[..|digests| - 1];
      CatalogMembership(reg, prefix, n);
      if exists j :: 0 <= j < |prefix| && n in DigestNames(reg, prefix[j]) {
        var j :| 0 <= j < |prefix| && n in DigestNames(reg, prefix[j]);
        assert digests[j] == prefix[j];
      }
      if j :| 0 <= j < |digests| && n in DigestNames(reg, digests[j]) {
        if j < |prefix| {
          assert prefix[j] == digests[j];
        }
      }
    }
  }

  /** The catalog has at most two entries for DSS and three per digest. */
  lemma {:induction false} CatalogSize(reg: Registry, digests: seq<string>)
    ensures |Catalog(reg, digests)| <= 2 + 3 * |digests|
    decreases |digests|
  {
    if digests != [] {
      var prefix := digests[..|digests| - 1];
      CatalogSize(reg, prefix);
      var d := DigestNames(reg, digests[|digests| - 1]);
      assert |d| <= 3;
      assert |Catalog(reg, prefix) + d| <= |Catalog(reg, prefix)| + |d|;
    }
  }

  /** The catalog depends on which digests there are, not on the order they are visited in. */
  lemma CatalogIgnoresOrder(reg: Registry, d: seq<string>, e: seq<string>)
    requires forall md :: md in d <==> md in e
    ensures Catalog(reg, d) == Catalog(reg, e)
  {
    forall n | n in Catalog(reg, d)
      ensures n in Catalog(reg, e)
    {
      CatalogMembership(reg, d, n);
      CatalogMembership(reg, e, n);
      if j :| 0 <= j < |d| && n in DigestNames(reg, d[j]) {
        assert d[j] in e;
        var k :| 0 <= k < |e| && e[k] == d[j];
        assert n in DigestNames(reg, e[k]);
      }
    }
    forall n | n in Catalog(reg, e)
      ensures n in Catalog(reg, d)
    {
      CatalogMembership(reg, d, n);
      CatalogMembership(reg, e, n);
      if j :| 0 <= j < |e| && n in DigestNames(reg, e[j]) {
        assert e[j] in d;
        var k :| 0 <= k < |d| && d[k] == e[j];
        assert n in DigestNames(reg, d[k]);
      }
    }
  }

  // ---------------------------------------------------------------------------
  // The shape of the real Registry constants, under which catalog entries resolve.

  /** A name that trimming leaves alone and that has no separator in it. */
  predicate IsToken(s: string) {
    s != [] && !IsTrimmable(s[0]) && !IsTrimmable(s[|s| - 1]) && '/' !in s
  }

  /**
   * What the Registry constants the catalog uses are like: all tokens, two
   * different short format names, and names that cannot be mistaken for
   * each other by the prefix tests of getRawCodec and getX509Codec.
   */
  predicate WellFormedNames(reg: Registry) {
    reg.Valid()
    && IsToken(reg.dssSig) && IsToken(reg.rsaPkcs1V15Sig) && IsToken(reg.rsaPssSig)
    && IsToken(reg.rawEncodingShortName) && IsToken(reg.x509EncodingShortName)
    && reg.rawEncodingShortName != reg.x509EncodingShortName
    && !StartsWith(reg.rsaPkcs1V15Sig, reg.rsaPssSig) && !StartsWith(reg.rsaPssSig, reg.rsaPkcs1V15Sig)
    && !StartsWith(ToLower(reg.dsaSig), reg.rsaPkcs1V15Sig) && !StartsWith(ToLower(reg.dsaSig), reg.rsaPssSig)
    && !StartsWith(ToLower(reg.dssSig), reg.rsaPkcs1V15Sig) && !StartsWith(ToLower(reg.dssSig), reg.rsaPssSig)
  }

  /** FormatUtil.getFormatID knows the two short format names the catalog uses. */
  predicate KnowsShortNames(reg: Registry, formatIdOf: FormatIdResolver) {
    formatIdOf(Some(reg.rawEncodingShortName)) == reg.rawEncodingId
    && formatIdOf(Some(reg.x509EncodingShortName)) == reg.x509EncodingId
  }

  lemma Pkcs1NameFamily(reg: Registry, n: string)
    requires WellFormedNames(reg) && StartsWith(n, reg.rsaPkcs1V15Sig)
    ensures FamilyOf(reg, n) == Some(RSAPKCS1v15)
  {
    StartsWithLowerCase(n, reg.rsaPkcs1V15Sig);
    assert ToLower(n) != ToLower(reg.dsaSig) && ToLower(n) != ToLower(reg.dssSig);
  }

  lemma PssNameFamily(reg: Registry, n: string)
    requires WellFormedNames(reg) && StartsWith(n, reg.rsaPssSig)
    ensures FamilyOf(reg, n) == Some(RSAPSS)
  {
    StartsWithLowerCase(n, reg.rsaPssSig);
    PrefixesComparable(ToLower(n), reg.rsaPssSig, reg.rsaPkcs1V15Sig);
    assert ToLower(n) != ToLower(reg.dsaSig) && ToLower(n) != ToLower(reg.dssSig);
  }

  /** An entry resolves to the codec of its algorithm's family in its format. */
  lemma EntryResolves(reg: Registry, formatIdOf: FormatIdResolver, a: string, f: string, family: Family)
    requires '/' !in a && a != [] && !IsTrimmable(a[0]) && IsToken(f) && formatIdOf(Some(f)) != 0
    requires FamilyOf(reg, Trim(a)) == Some(family)
    ensures GetInstance(reg, formatIdOf, Some(a + "/" + f)) == Lookup(Some(family), FormatOfId(reg, formatIdOf(Some(f))))
  {
    ComposedNameSplitsAtFirstSeparator(reg, formatIdOf, a, f);
  }

  /** An algorithm name followed by either short format name resolves to its family's codec in that format. */
  lemma AlgorithmEntriesResolve(reg: Registry, formatIdOf: FormatIdResolver, a: string, family: Family)
    requires WellFormedNames(reg) && KnowsShortNames(reg, formatIdOf)
    requires '/' !in a && a != [] && !IsTrimmable(a[0]) && FamilyOf(reg, Trim(a)) == Some(family)
    ensures GetInstance(reg, formatIdOf, Some(a + "/" + reg.rawEncodingShortName)) == CodecFor(family, Raw)
    ensures GetInstance(reg, formatIdOf, Some(a + "/" + reg.x509EncodingShortName)) == CodecFor(family, X509)
  {
    EntryResolves(reg, formatIdOf, a, reg.rawEncodingShortName, family);
    EntryResolves(reg, formatIdOf, a, reg.x509EncodingShortName, family);
  }

  /** An algorithm part made of an RSA prefix, a hyphen and a digest name. */
  lemma DigestAlgorithmName(prefix: string, md: string)
    requires IsToken(prefix) && '/' !in md
    ensures var a := prefix + "-" + md;
      '/' !in a && a != [] && !IsTrimmable(a[0]) && StartsWith(Trim(a), prefix)
  {
    var a := prefix + "-" + md;
    assert a == prefix + ("-" + md) && a[0] == prefix[0];
    TrimKeepsVisiblePrefix(prefix, "-" + md);
  }

  /** Both DSS entries resolve to the DSS codec of their format. */
  lemma DssNamesResolve(reg: Registry, formatIdOf: FormatIdResolver)
    requires WellFormedNames(reg) && KnowsShortNames(reg, formatIdOf)
    ensures GetInstance(reg, formatIdOf, Some(reg.dssSig + "/" + reg.rawEncodingShortName)) == Some(DSSRaw)
    ensures GetInstance(reg, formatIdOf, Some(reg.dssSig + "/" + reg.x509EncodingShortName)) == Some(DSSX509)
  {
    TrimmedIsUnchanged(reg.dssSig);
    AlgorithmEntriesResolve(reg, formatIdOf, reg.dssSig, DSS);
  }

  /** The PKCS#1 v1.5 entries of a digest resolve to the PKCS#1 v1.5 codec of their format. */
  lemma Pkcs1NamesResolve(reg: Registry, formatIdOf: FormatIdResolver, md: string)
    requires WellFormedNames(reg) && KnowsShortNames(reg, formatIdOf) && '/' !in md
    ensures GetInstance(reg, formatIdOf, Some(reg.rsaPkcs1V15Sig + "-" + md + "/" + reg.rawEncodingShortName))
              == Some(RSAPKCS1v15Raw)
    ensures GetInstance(reg, formatIdOf, Some(reg.rsaPkcs1V15Sig + "-" + md + "/" + reg.x509EncodingShortName))
              == Some(RSAPKCS1v15X509)
  {
    var a := reg.rsaPkcs1V15Sig + "-" + md;
    DigestAlgorithmName(reg.rsaPkcs1V15Sig, md);
    Pkcs1NameFamily(reg, Trim(a));
    AlgorithmEntriesResolve(reg, formatIdOf, a, RSAPKCS1v15);
  }

  /** The PSS entry of a digest resolves to the PSS Raw codec; its X.509 counterpart resolves to nothing. */
  lemma PssNamesResolve(reg: Registry, formatIdOf: FormatIdResolver, md: string)
    requires WellFormedNames(reg) && KnowsShortNames(reg, formatIdOf) && '/' !in md
    ensures GetInstance(reg, formatIdOf, Some(reg.rsaPssSig + "-" + md + "/" + reg.rawEncodingShortName))
              == Some(RSAPSSRaw)
    ensures GetInstance(reg, formatIdOf, Some(reg.rsaPssSig + "-" + md + "/" + reg.x509EncodingShortName))
              == None
  {
    var a := reg.rsaPssSig + "-" + md;
    DigestAlgorithmName(reg.rsaPssSig, md);
    PssNameFamily(reg, Trim(a));
    AlgorithmEntriesResolve(reg, formatIdOf, a, RSAPSS);
  }

  /** Every name getNames lists selects a codec. */
  lemma CatalogNamesResolve(reg: Registry, formatIdOf: FormatIdResolver, digests: seq<string>, n: string)
    requires WellFormedNames(reg) && KnowsShortNames(reg, formatIdOf)
    requires forall j :: 0 <= j < |digests| ==> '/' !in digests[j]
    requires n in Catalog(reg, digests)
    ensures GetInstance(reg, formatIdOf, Some(n)).Some?
  {
    CatalogMembership(reg, digests, n);
    if n in DssNames(reg) {
      DssNamesResolve(reg, formatIdOf);
    } else {
      var j :| 0 <= j < |digests| && n in DigestNames(reg, digests[j]);
      Pkcs1NamesResolve(reg, formatIdOf, digests[j]);
      PssNamesResolve(reg, formatIdOf, digests[j]);
    }
  }

  // ---------------------------------------------------------------------------
  // What the catalog leaves out.

  /** A name ending in a separator-free part determines that part and what precedes its separator. */
  lemma LastSeparatorSplitsUniquely(x: string, t: string, y: string, u: string)
    requires '/' !in t && '/' !in u
    ensures x + "/" + t == y + "/" + u <==> x == y && t == u
  {
    if x + "/" + t == y + "/" + u {
      var n := x + "/" + t;
      assert n == x + ['/'] + t && n == y + ['/'] + u;
      assert n[|x|] == '/' && n[|y|] == '/';
      assert forall k :: |x| < k < |n| ==> n[k] == t[k - |x| - 1];
      assert forall k :: |y| < k < |n| ==> n[k] == u[k - |y| - 1];
      assert |x| == |y|;
      assert x == n[..|x|] && y == n[..|y|];
      assert t == n[|x| + 1..] && u == n[|y| + 1..];
    }
  }

  lemma PssX509NotListed(reg: Registry, md: string, other: string)
    requires WellFormedNames(reg)
    ensures reg.rsaPssSig + "-" + md + "/" + reg.x509EncodingShortName !in DssNames(reg)
    ensures reg.rsaPssSig + "-" + md + "/" + reg.x509EncodingShortName !in DigestNames(reg, other)
  {
    var pss, pkcs1 := reg.rsaPssSig + "-" + md, reg.rsaPkcs1V15Sig + "-" + other;
    var x509, raw := reg.x509EncodingShortName, reg.rawEncodingShortName;
    assert pss == reg.rsaPssSig + ("-" + md) && pkcs1 == reg.rsaPkcs1V15Sig + ("-" + other);
    // Against a Raw entry: the two short format names would be equal.
    LastSeparatorSplitsUniquely(pss, x509, reg.dssSig, raw);
    LastSeparatorSplitsUniquely(pss, x509, pkcs1, raw);
    LastSeparatorSplitsUniquely(pss, x509, reg.rsaPssSig + "-" + other, raw);
    // Against the DSS X.509 entry: the lower-cased DSS name would start with the PSS prefix.
    LastSeparatorSplitsUniquely(pss, x509, reg.dssSig, x509);
    StartsWithLowerCase(pss, reg.rsaPssSig);
    // Against a PKCS#1 v1.5 X.509 entry: the two RSA prefixes would be comparable.
    LastSeparatorSplitsUniquely(pss, x509, pkcs1, x509);
    ConcatenationsComparable(reg.rsaPssSig, "-" + md, reg.rsaPkcs1V15Sig, "-" + other);
  }

  /** getNames never lists a PSS name in the X.509 format, whatever the digest names are. */
  lemma CatalogOmitsPssX509(reg: Registry, digests: seq<string>, md: string)
    requires WellFormedNames(reg)
    ensures reg.rsaPssSig + "-" + md + "/" + reg.x509EncodingShortName !in Catalog(reg, digests)
  {
    var n := reg.rsaPssSig + "-" + md + "/" + reg.x509EncodingShortName;
    CatalogMembership(reg, digests, n);
    forall j | 0 <= j < |digests|
      ensures n !in DigestNames(reg, digests[j])
    {
      PssX509NotListed(reg, md, digests[j]);
    }
    PssX509NotListed(reg, md, md);
  }
}
