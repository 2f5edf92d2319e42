/** The timezone catalog `AVAILABLE_TIMEZONES`: label -> zone identifier,
    built from the zone identifiers of the system's tz database. */
module Catalog {
  import opened Labels

  /** A dict comprehension `{key(z): z for z in zones}`: every zone is
      filed under its label, and a later zone with the same label
      overwrites an earlier one. */
  function IndexByLabel(zones: seq<string>, key: string -> string): (index: map<string, string>)
    ensures forall z :: z in zones ==> key(z) in index
    ensures forall k :: k in index ==> index[k] in zones && key(index[k]) == k
  {
    if zones == [] then map[]
    else
      var front := zones[..|zones| - 1];
      assert zones == front + [zones[|zones| - 1]];
      IndexByLabel(front, key)[key(zones[|zones| - 1]) := zones[|zones| - 1]]
  }

  /** The entry for a label is the LAST zone, in iteration order, that has
      that label. */
  lemma {:induction false} IndexLastWins(zones: seq<string>, key: string -> string, i: nat)
    requires i < |zones|
    requires forall j :: i < j < |zones| ==> key(zones[j]) != key(zones[i])
    ensures IndexByLabel(zones, key)[key(zones[i])] == zones[i]
  {
    var n := |zones| - 1;
    var front := zones[..n];
    if i < n {
      assert key(zones[n]) != key(zones[i]);
      assert zones[i] == front[i];
      assert forall j :: i < j < |front| ==> front[j] == zones[j];
      IndexLastWins(front, key, i);
    }
  }

  /** No two distinct zones share a label. */
  ghost predicate Injective(zones: seq<string>, key: string -> string)
  {
    forall a, b :: a in zones && b in zones && a != b ==> key(a) != key(b)
  }

  /** Without collisions the index does not depend on the iteration order. */
  lemma IndexOrderIndependent(zones1: seq<string>, zones2: seq<string>, key: string -> string)
    requires forall z :: z in zones1 <==> z in zones2
    requires Injective(zones1, key)
    ensures IndexByLabel(zones1, key) == IndexByLabel(zones2, key)
  {
    var c1, c2 := IndexByLabel(zones1, key), IndexByLabel(zones2, key);
    forall k | k in c1
      ensures k in c2 && c1[k] == c2[k]
    {
      var z1 := c1[k];
      assert z1 in zones2 && key(z1) == k;
      var z2 := c2[k];
      assert z2 in zones1 && key(z2) == k;
    }
    forall k | k in c2
      ensures k in c1
    {
      assert c2[k] in zones1;
    }
  }

  /** The catalog `AVAILABLE_TIMEZONES`, where `zones` is the order in which
      the set of available zone identifiers is iterated. */
  function BuildCatalog(zones: seq<string>): (catalog: map<string, string>)
    ensures forall z :: z in zones ==> Label(z) in catalog
    ensures forall k :: k in catalog ==> catalog[k] in zones && Label(catalog[k]) == k
  {
    IndexByLabel(zones, Label)
  }

  /** No catalog label contains '_' or '/'. */
  lemma CatalogLabelsClean(zones: seq<string>, k: string)
    requires k in BuildCatalog(zones)
    ensures '_' !in k && '/' !in k
    ensures k == ReplaceUnderscores(LastSegment(BuildCatalog(zones)[k]))
  {
  }

  /** The entry for a label is the last zone with that label. */
  lemma CatalogLastWins(zones: seq<string>, i: nat)
    requires i < |zones|
    requires forall j :: i < j < |zones| ==> Label(zones[j]) != Label(zones[i])
    ensures BuildCatalog(zones)[Label(zones[i])] == zones[i]
  {
    IndexLastWins(zones, Label, i);
  }

  /** No two distinct zones share a label. */
  ghost predicate NoCollisions(zones: seq<string>)
  {
    Injective(zones, Label)
  }

  /** With no two zones sharing a key, every zone is the value at its own
      label. */
  lemma CatalogCompleteWithoutCollisions(zones: seq<string>, z: string)
    requires NoCollisions(zones)
    requires z in zones
    ensures Label(z) in BuildCatalog(zones) && BuildCatalog(zones)[Label(z)] == z
  {
    var catalog := BuildCatalog(zones);
    assert Label(catalog[Label(z)]) == Label(z);
  }

  /** Without collisions the catalog does not depend on the iteration order
      of the zone set. */
  lemma CatalogOrderIndependent(zones1: seq<string>, zones2: seq<string>)
    requires forall z :: z in zones1 <==> z in zones2
    requires NoCollisions(zones1)
    ensures BuildCatalog(zones1) == BuildCatalog(zones2)
  {
    IndexOrderIndependent(zones1, zones2, Label);
  }

  /** The catalog of the single zone `region/city` maps `city` to it. */
  lemma SingleZoneCatalog(region: string, city: string)
    requires '/' !in city && '_' !in city
    ensures BuildCatalog([region + "/" + city]) == map[city := region + "/" + city]
  {
    var zone := region + "/" + city;
    assert zone[|zone| - |city|..] == city && zone[|zone| - |city| - 1] == '/';
    LastSegmentUnique(zone, city);
    ReplaceUnderscoresUnchanged(city);
    assert BuildCatalog([zone]) == BuildCatalog([])[Label(zone) := zone];
  }

  /** Two zones whose identifiers end in the same city (for instance
      "America/Indianapolis" and "America/Indiana/Indianapolis") collide: the
      catalog keeps one entry, the zone iterated last. */
  lemma CollisionKeepsLastZone(region1: string, region2: string, city: string)
    requires '/' !in city && '_' !in city
    ensures var zone1, zone2 := region1 + "/" + city, region2 + "/" + city;
      var catalog := BuildCatalog([zone1, zone2]);
      catalog.Keys == {city} && catalog[city] == zone2
  {
    var a, b := region1 + "/" + city, region2 + "/" + city;
    assert a[|a| - |city|..] == city && a[|a| - |city| - 1] == '/';
    assert b[|b| - |city|..] == city && b[|b| - |city| - 1] == '/';
    LastSegmentUnique(a, city);
    LastSegmentUnique(b, city);
    ReplaceUnderscoresUnchanged(city);
    CatalogLastWins([a, b], 1);
  }
}
