/**
 * Minecraft server versions, as ProtocolLib's `MinecraftVersion` orders them:
 * lexicographically by major, minor and build number. Only the four release
 * constants the plugin names are defined.
 */
module Versions {

  datatype Version = Version(major: nat, minor: nat, build: nat)

  const BountifulUpdate: Version := Version(1, 8, 0)
  const CombatUpdate: Version := Version(1, 9, 0)
  const CavesCliffs1: Version := Version(1, 17, 0)
  const WildUpdate: Version := Version(1, 19, 0)

  /** Lexicographic comparison on (major, minor, build); the sign says which is newer. */
  function Compare(a: Version, b: Version): (r: int)
    ensures r == 0 <==> a == b
    ensures -1 <= r <= 1
  {
    if a.major != b.major then (if a.major < b.major then -1 else 1)
    else if a.minor != b.minor then (if a.minor < b.minor then -1 else 1)
    else if a.build != b.build then (if a.build < b.build then -1 else 1)
    else 0
  }

  /** `version.atOrAbove()` asked of a server running `server`. */
  predicate AtOrAbove(server: Version, v: Version) {
    Compare(server, v) >= 0
  }

  lemma CompareAntisymmetric(a: Version, b: Version)
    ensures Compare(b, a) == -Compare(a, b)
  {
  }

  /** `AtOrAbove` is a total order: reflexive, transitive, and any two versions compare. */
  lemma AtOrAboveTotalOrder(a: Version, b: Version, c: Version)
    ensures AtOrAbove(a, a)
    ensures AtOrAbove(a, b) || AtOrAbove(b, a)
    ensures AtOrAbove(a, b) && AtOrAbove(b, a) ==> a == b
    ensures AtOrAbove(a, b) && AtOrAbove(b, c) ==> AtOrAbove(a, c)
  {
  }

  /** The named releases in the order they came out. */
  lemma ReleasesOrdered()
    ensures Compare(BountifulUpdate, CombatUpdate) < 0
    ensures Compare(CombatUpdate, CavesCliffs1) < 0
    ensures Compare(CavesCliffs1, WildUpdate) < 0
  {
  }
}
