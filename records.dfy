/**
 * The fixed enumerations of the tracker, the child record kept per locality,
 * and `storageKeyFor`, the local-storage key of a (barangay, sitio) pair.
 */
module Records {
  import opened Wrappers

  /** `LS.dataPrefix`. */
  const DATA_PREFIX: string := "hp_children_"

  /** The four tracked vaccines; `Name` is the record property and the key of the counts object. */
  datatype Vaccine = BCG | OPV | Pentavalent | Measles

  function Name(v: Vaccine): string {
    match v
    case BCG => "BCG"
    case OPV => "OPV"
    case Pentavalent => "Pentavalent"
    case Measles => "Measles"
  }

  /** `VACCINES`, in its order. */
  const VACCINES: seq<Vaccine> := [BCG, OPV, Pentavalent, Measles]

  const BARANGAYS: seq<string> := ["Barangay 1", "Barangay 2", "Barangay 3", "Barangay 4", "Barangay 5"]

  const SITIOS: seq<string> := ["Sitio A", "Sitio B", "Sitio C"]

  /**
   * One child's record as the import handler builds it. `age` is `None` where
   * `Number` gives no integer (NaN, a fraction); statuses are free text.
   */
  datatype Record = Record(
    child: string,
    age: Option<int>,
    parent: string,
    barangay: string,
    sitio: string,
    bcg: string,
    opv: string,
    pentavalent: string,
    measles: string)

  /** `r[v]`: the status stored under the vaccine's name. */
  function Status(r: Record, v: Vaccine): string {
    match v
    case BCG => r.bcg
    case OPV => r.opv
    case Pentavalent => r.pentavalent
    case Measles => r.measles
  }

  /** `storageKeyFor(b, s)`: the prefix, the barangay, `__` and the sitio. */
  function StorageKeyFor(b: string, s: string): (k: string)
    ensures |k| == |DATA_PREFIX| + |b| + 2 + |s|
    ensures k[..|DATA_PREFIX|] == DATA_PREFIX
  {
    DATA_PREFIX + b + "__" + s
  }

  lemma KeyParts(b: string, s: string)
    ensures var k, n := StorageKeyFor(b, s), |DATA_PREFIX|;
      k[n..n + |b|] == b && k[n + |b|..n + |b| + 2] == "__" && k[n + |b| + 2..] == s
  {
    var k, n := StorageKeyFor(b, s), |DATA_PREFIX|;
    assert k == DATA_PREFIX + (b + ("__" + s));
  }

  /** Keys of barangays with the same length determine the pair: the cut after the barangay is at the same place. */
  lemma KeyInjective(b1: string, s1: string, b2: string, s2: string)
    requires |b1| == |b2|
    ensures StorageKeyFor(b1, s1) == StorageKeyFor(b2, s2) <==> b1 == b2 && s1 == s2
  {
    if StorageKeyFor(b1, s1) == StorageKeyFor(b2, s2) {
      KeyParts(b1, s1);
      KeyParts(b2, s2);
    }
  }

  /** The enumerated localities all have distinct keys. */
  lemma EnumeratedKeysDistinct(b1: string, s1: string, b2: string, s2: string)
    requires b1 in BARANGAYS && b2 in BARANGAYS && s1 in SITIOS && s2 in SITIOS
    ensures StorageKeyFor(b1, s1) == StorageKeyFor(b2, s2) <==> b1 == b2 && s1 == s2
  {
    assert |b1| == 10 && |b2| == 10;
    KeyInjective(b1, s1, b2, s2);
  }

  /** Outside the enumerations keys can collide: the `__` separator may occur in a name. */
  lemma KeysCanCollide()
    ensures StorageKeyFor("a__b", "c") == StorageKeyFor("a", "b__c")
  {
  }
}
