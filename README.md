# SignatureCodecFactory in Dafny

This project models `gnu.java.security.sig.SignatureCodecFactory` from GNU Classpath. The model has two halves.

- **Lookup.** The three `getInstance` overloads, together with the private `getRawCodec` and `getX509Codec`, turn a name into one of five signature codecs or into Java's `null`.
  - The name may be composed as `algorithm["/" format]` and is matched ignoring case.
  - The five codecs are: DSS in Raw and X.509, RSA-PKCS1-v1.5 in Raw and X.509, and RSA-PSS in Raw only.
  - The codecs appear only as tags of the `Codec` datatype.
  - The lookup is pure, so it is modelled as functions.
- **Catalog.** `getNames` builds, once and lazily, the set of supported composed names and stores it in the static field `names`.
  - This is modelled as the class `SignatureCodecNames`, which has a field `names: Option<set<string>>` and a method `GetNames` with a `while` loop over the digest names.

The factory reads three pieces of code that it does not define. They are parameters of the model:

- the constants of `gnu.java.security.Registry` — the `Registry` datatype;
- `FormatUtil.getFormatID` — a `FormatIdResolver` function from an optional format name to an `int`, where 0 means unknown;
- `HashFactory.getNames` — the sequence `digestNames`, in iteration order.

The lookup assumes only what the factory itself relies on (`Registry.Valid`):

- the two format identifiers are different, because the `switch` at lines 142-150 has them as case labels;
- neither identifier is 0, the "unknown" answer;
- the RSA prefixes are lower case, because lines 193-197 compare them against a lower-cased name.

The lemmas about the catalog entries assume more about the foreign code, namely what the real constants and helpers are like:

- `WellFormedNames`:
  - `Registry.Valid` holds;
  - the DSS name, both RSA prefixes and both short format names are tokens: nonempty, no blank at either end, no `/`;
  - the two short format names differ;
  - neither RSA prefix starts with the other;
  - the lower-cased DSA and DSS names start with neither RSA prefix.
- `KnowsShortNames`: `FormatUtil.getFormatID` maps `RAW_ENCODING_SHORT_NAME` to the Raw id and `X509_ENCODING_SORT_NAME` to the X.509 id.
- The digest names of `HashFactory.getNames` contain no `/`. `DssNamesResolve` does not need this; `Pkcs1NamesResolve`, `PssNamesResolve` and `CatalogNamesResolve` do.

Java strings are modelled on ASCII by `JavaStrings` (`Trim`, `ToLower`, `EqualsIgnoreCase`, `StartsWith`, `EndsWith`, `IndexOf`). `Trim` strips characters up to `' '` from both ends, as `String.trim` does.

A `null` reference is modelled as `None` of `Wrappers.Option`.

Each catalog name is a `Registry` algorithm name, optionally followed by `-` and a digest name, then `/` and a `Registry` short format name (for example `Registry.DSS_SIG + "/" + Registry.RAW_ENCODING_SHORT_NAME`).

## Model

| member | source | states |
|---|---|---|
| SignatureCodecFactory.GetInstance | gnu/java/security/sig/SignatureCodecFactory.java:81-104 | nothing for a null name, for a name that is empty once trimmed, or for a trimmed name that starts with `/` |
| SignatureCodecFactory.SplitComposedName | gnu/java/security/sig/SignatureCodecFactory.java:87-103 | a trimmed name is malformed exactly when it is empty or starts with `/`; the pieces it yields always reassemble into the name; the algorithm part of a split name has no `/`; a format part is nonempty and does not end in `/` |
| SignatureCodecFactory.NoSeparatorMeansRaw | gnu/java/security/sig/SignatureCodecFactory.java:97-99 | a name without `/` that is not blank once trimmed resolves as itself with the Raw format id (a blank name gives no codec, checked before any lookup) |
| SignatureCodecFactory.OneTrailingSeparatorDropped | gnu/java/security/sig/SignatureCodecFactory.java:93-95 | `a + "/"` resolves as `getInstance(a, RAW_ENCODING_ID)` whenever `a` is not blank and its first visible character is not `/` (leading padding allowed); exactly one `/` is dropped and `a` is not split again, so `"rsa-pss-sha256/x.509/"` names the algorithm `"rsa-pss-sha256/x.509"` in the Raw format, which the RSA-PSS prefix test still accepts |
| SignatureCodecFactory.TrailingSeparatorMeansRaw | gnu/java/security/sig/SignatureCodecFactory.java:93-99 | for an algorithm name without `/`, adding a trailing `/` changes nothing (`"DSS/"` means `"DSS"`) |
| SignatureCodecFactory.ComposedNameSplitsAtFirstSeparator | gnu/java/security/sig/SignatureCodecFactory.java:97-103 | `a + "/" + b`, with `a` free of `/` and not starting with a blank, and `b` nonempty and ending in neither `/` nor a blank, resolves as `getInstance(a, b)`; a `b` ending in `/` instead takes the trailing-separator branch (`OneTrailingSeparatorDropped`), and padding is covered by `PaddingIgnored` |
| SignatureCodecFactory.PaddingIgnored | gnu/java/security/sig/SignatureCodecFactory.java:86 | blanks around a composed name never change the codec it selects |
| SignatureCodecFactory.CaseIgnored | gnu/java/security/sig/SignatureCodecFactory.java:81-104 | composed names equal up to case select the same codec, for a format resolver that ignores case |
| SignatureCodecFactory.SplitIgnoresCase | gnu/java/security/sig/SignatureCodecFactory.java:90-102 | names equal up to case are read into pieces equal up to case |
| SignatureCodecFactory.GetInstanceWithFormat | gnu/java/security/sig/SignatureCodecFactory.java:116-123 | nothing for an unknown format name (id 0) or a null name; otherwise the codec of the family of the trimmed name in the format selected by the id |
| SignatureCodecFactory.FormatNameDelegatesToId | gnu/java/security/sig/SignatureCodecFactory.java:118-122 | nothing when the format id is 0, and otherwise exactly `getInstance(name, id)` |
| SignatureCodecFactory.GetInstanceWithId | gnu/java/security/sig/SignatureCodecFactory.java:136-151 | nothing for a null name or for an id other than the Raw and X.509 ids; otherwise the codec of the family of the trimmed name in that format |
| SignatureCodecFactory.PaddingIgnoredWithId | gnu/java/security/sig/SignatureCodecFactory.java:141 | blanks around an algorithm name never change the codec |
| SignatureCodecFactory.CaseIgnoredWithId | gnu/java/security/sig/SignatureCodecFactory.java:136-151 | algorithm names equal up to case select the same codec under every format id |
| SignatureCodecFactory.FamilyOf | gnu/java/security/sig/SignatureCodecFactory.java:188-197 | DSS exactly when the name equals the DSA or the DSS name up to case; otherwise RSA-PKCS1-v1.5 exactly when the lower-cased name starts with its prefix, which is tried before RSA-PSS; otherwise RSA-PSS exactly when it starts with the PSS prefix |
| SignatureCodecFactory.FamilyOfDependsOnLowerCase | gnu/java/security/sig/SignatureCodecFactory.java:188-197 | the family depends only on the lower-cased name |
| SignatureCodecFactory.GetRawCodec | gnu/java/security/sig/SignatureCodecFactory.java:185-201 | the Raw codec of the family of the name, and nothing when there is no family |
| SignatureCodecFactory.GetX509Codec | gnu/java/security/sig/SignatureCodecFactory.java:208-222 | the X.509 codec of the family of the name; nothing for RSA-PSS and for names without a family |
| SignatureCodecFactory.X509CodecMirrorsRaw | gnu/java/security/sig/SignatureCodecFactory.java:185-222 | getX509Codec answers exactly for the names getRawCodec answers, minus the RSA-PSS ones, and with the same family |
| SignatureCodecFactory.PssHasNoX509 | gnu/java/security/sig/SignatureCodecFactory.java:136-151 | an RSA-PSS name gets the PSS Raw codec under the Raw id and nothing under the X.509 id |
| SignatureCodecFactory.CodecFor | gnu/java/security/sig/SignatureCodecFactory.java:185-222 | every family has a codec in every format except RSA-PSS in X.509, and the codec has that family and format |
| SignatureCodecCatalog.SignatureCodecNames.GetNames | gnu/java/security/sig/SignatureCodecFactory.java:158-178 | builds the catalog only while `names` is None, stores it in `names`, returns the catalog, and on a later call leaves `names` unchanged and returns the stored set |
| SignatureCodecCatalog.SignatureCodecNames.constructor | gnu/java/security/sig/SignatureCodecFactory.java:59 | the catalog starts out not yet built |
| SignatureCodecCatalog.CatalogMembership | gnu/java/security/sig/SignatureCodecFactory.java:162-172 | a name is listed exactly when it is `DSS/raw`, `DSS/x509`, or for some digest `md` one of `pkcs1-md/raw`, `pkcs1-md/x509`, `pss-md/raw` |
| SignatureCodecCatalog.CatalogSize | gnu/java/security/sig/SignatureCodecFactory.java:162-172 | the catalog has at most 2 + 3·(number of digests) names |
| SignatureCodecCatalog.CatalogIgnoresOrder | gnu/java/security/sig/SignatureCodecFactory.java:165 | the catalog does not depend on the order in which the digest names are iterated |
| SignatureCodecCatalog.CatalogOmitsPssX509 | gnu/java/security/sig/SignatureCodecFactory.java:170-171 | for any digest names and any `md`, the name `pss-md/x509` is never listed (given `WellFormedNames`) |
| SignatureCodecCatalog.CatalogNamesResolve | gnu/java/security/sig/SignatureCodecFactory.java:158-178 | every listed name selects a codec through `getInstance(String)` |
| SignatureCodecCatalog.DssNamesResolve | gnu/java/security/sig/SignatureCodecFactory.java:163-164 | the two DSS names select DSS Raw and DSS X.509 |
| SignatureCodecCatalog.Pkcs1NamesResolve | gnu/java/security/sig/SignatureCodecFactory.java:167-169 | the two PKCS#1 v1.5 names of a digest select that family's Raw and X.509 codecs |
| SignatureCodecCatalog.PssNamesResolve | gnu/java/security/sig/SignatureCodecFactory.java:170-171 | the PSS Raw name of a digest selects PSS Raw, and its unlisted X.509 counterpart selects nothing |
| JavaStrings.Trim | gnu/java/security/sig/SignatureCodecFactory.java:86 | a trimmed string that is not empty begins and ends with a character above `' '` |
| JavaStrings.TrimRemovesOnlyEnds | gnu/java/security/sig/SignatureCodecFactory.java:141 | trimming removes only characters up to `' '`, and only at the two ends |
| JavaStrings.TrimPadded | gnu/java/security/sig/SignatureCodecFactory.java:141 | trimming a string padded with blanks gives what trimming the string gives |
| JavaStrings.ToLower | gnu/java/security/sig/SignatureCodecFactory.java:193 | the result has the input's length, contains no upper-case letter, and equals the input under the character test of `equalsIgnoreCase` |
| JavaStrings.TrimToLower | gnu/java/security/sig/SignatureCodecFactory.java:86-193 | trimming and lower-casing commute |
| JavaStrings.EqualsIgnoreCaseIsLowerEquality | gnu/java/security/sig/SignatureCodecFactory.java:188-189 | `equalsIgnoreCase` holds exactly when the lower-cased strings are equal |
| JavaStrings.IndexOf | gnu/java/security/sig/SignatureCodecFactory.java:97 | nothing exactly when the character is absent; otherwise the position of its first occurrence |

## Left out

- The codec classes (`DSSSignatureRawCodec` and the rest) are left out: their encodings are not part of this model and they are represented only as `Codec` tags.
- `Registry`, `FormatUtil.getFormatID` and `HashFactory.getNames` are foreign code. They are parameters of the model. The lookup assumes only `Registry.Valid` about them; the catalog-entry lemmas also assume `WellFormedNames`, `KnowsShortNames` and digest names without `/`, all listed above.
- CatalogNamesResolve: proved only for digest names without `/`. It cannot be proved for all of them: a digest `a/b` makes the entry `rsa-pss-a/b/raw`, which is split into the format name `b/raw`, and `getFormatID` need not know that name.
- Pkcs1NamesResolve, PssNamesResolve: proved only for digest names without `/`, for the same reason.
- DssNamesResolve, Pkcs1NamesResolve, PssNamesResolve, CatalogNamesResolve: these assume `KnowsShortNames`, because the code of `FormatUtil.getFormatID` is not part of this model.
- `CaseIgnored`: it needs the format resolver to ignore case (`FormatIdIgnoresCase`). That is what `FormatUtil.getFormatID` is expected to do, but its code is not part of this model.
- `synchronized` on `getNames` is left out: the memoisation is modelled for sequential calls only.
- `Collections.unmodifiableSet` is left out: a Dafny `set` is an immutable value already.
- `static` state becomes one object: the field `names` is a field of a `SignatureCodecNames` object that stands for the class's static state. The digest names are fixed when that object is made.
- Locale-sensitive `toLowerCase` and Unicode case mapping in `equalsIgnoreCase` are left out: case folding is ASCII only.
- The other files of the repository (`javax.annotation.processing.Processor`, `javax.lang.model.util.TypeKindVisitor7`, `javax.lang.model.element.UnknownElementException`) are not part of this model. They have no algorithmic content that the factory uses.
