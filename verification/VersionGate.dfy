/**
 The image version comparison and the downgrade check built on it.
 */
module VersionGate {
  import opened ImageFormat

  /** boot_version_cmp; the build number counts only in some builds. */
  function VersionCmp(v1: Version, v2: Version, useBuild: bool): int {
    if v1.major > v2.major then 1
    else if v1.major < v2.major then -1
    else if v1.minor > v2.minor then 1
    else if v1.minor < v2.minor then -1
    else if v1.revision > v2.revision then 1
    else if v1.revision < v2.revision then -1
    else if useBuild && v1.build > v2.build then 1
    else if useBuild && v1.build < v2.build then -1
    else 0
  }

  /** Lexicographic in major, minor, revision and, if it counts, build number. */
  lemma VersionCmpIff(v1: Version, v2: Version, useBuild: bool)
    ensures VersionCmp(v1, v2, useBuild) > 0 <==>
              || v1.major > v2.major
              || (v1.major == v2.major && v1.minor > v2.minor)
              || (v1.major == v2.major && v1.minor == v2.minor && v1.revision > v2.revision)
              || (v1.major == v2.major && v1.minor == v2.minor && v1.revision == v2.revision
                  && useBuild && v1.build > v2.build)
    ensures VersionCmp(v1, v2, useBuild) == 0 <==>
              && v1.major == v2.major && v1.minor == v2.minor && v1.revision == v2.revision
              && (useBuild ==> v1.build == v2.build)
  {
  }

  /** The version as one number. */
  function Key(v: Version, useBuild: bool): nat {
    ((v.major as int * 0x100 + v.minor as int) * 0x1_0000 + v.revision as int) * 0x1_0000_0000
    + if useBuild then v.build else 0
  }

  function Sign(n: int): int {
    if n > 0 then 1 else if n < 0 then -1 else 0
  }

  /** The comparison is that of the numbers, so it is a total preorder. */
  lemma VersionCmpIsOrder(v1: Version, v2: Version, useBuild: bool)
    ensures VersionCmp(v1, v2, useBuild) == Sign(Key(v1, useBuild) - Key(v2, useBuild))
  {
  }

  lemma VersionCmpTransitive(v1: Version, v2: Version, v3: Version, useBuild: bool)
    requires VersionCmp(v1, v2, useBuild) >= 0 && VersionCmp(v2, v3, useBuild) >= 0
    ensures VersionCmp(v1, v3, useBuild) >= 0
  {
    VersionCmpIsOrder(v1, v2, useBuild);
    VersionCmpIsOrder(v2, v3, useBuild);
    VersionCmpIsOrder(v1, v3, useBuild);
  }
}
