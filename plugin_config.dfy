/**
 * generatePluginConfig (index.js:78-98): the resolved records grouped by
 * item shortname into the "Skins" array of the plugin configuration.
 */
module PluginConfig {
  import opened Records

  /** One entry of the configuration's "Skins" array. */
  datatype Group = Group(shortname: string, permission: string, skins: seq<int>)

  /** The filter `workshopid > -1` (index.js:80), keeping cache order. */
  function Resolved(cache: seq<Record>): (r: seq<Record>)
    ensures |r| <= |cache|
    ensures forall x | x in r :: x in cache && x.workshopid > -1
    ensures forall x | x in cache && x.workshopid > -1 :: x in r
  {
    if cache == [] then []
    else
      var last := cache[|cache| - 1];
      Resolved(cache[..|cache| - 1]) + (if last.workshopid > -1 then [last] else [])
  }

  /** The item ids of the records, in order. */
  function ItemIdsOf(rs: seq<Record>): (ids: seq<string>)
    ensures |ids| == |rs| && forall i | 0 <= i < |rs| :: ids[i] == rs[i].itemid
  {
    seq(|rs|, i requires 0 <= i < |rs| => rs[i].itemid)
  }

  /** The distinct item ids of the records, each where it first occurs. */
  function Shortnames(rs: seq<Record>): (names: seq<string>)
    ensures forall a, b | 0 <= a < b < |names| :: names[a] != names[b]
    ensures forall n :: n in names <==> n in ItemIdsOf(rs)
  {
    if rs == [] then []
    else
      var init := rs[..|rs| - 1];
      var before := Shortnames(init);
      var id := rs[|rs| - 1].itemid;
      assert forall n | n in ItemIdsOf(init) :: n in ItemIdsOf(rs) by {
        forall n | n in ItemIdsOf(init) ensures n in ItemIdsOf(rs) {
          var i :| 0 <= i < |init| && ItemIdsOf(init)[i] == n;
          assert ItemIdsOf(rs)[i] == n;
        }
      }
      assert ItemIdsOf(rs)[|rs| - 1] == id;
      if id in before then before else before + [id]
  }

  /** The workshop ids of the records whose item id is `name`, in order, duplicates kept. */
  function IdsFor(rs: seq<Record>, name: string): (ids: seq<int>)
    ensures |ids| <= |rs|
    ensures (forall i | 0 <= i < |rs| :: rs[i].itemid != name) <==> ids == []
    ensures forall k | 0 <= k < |ids| :: exists i | 0 <= i < |rs| :: rs[i].itemid == name && rs[i].workshopid == ids[k]
  {
    if rs == [] then []
    else
      var init := rs[..|rs| - 1];
      var last := rs[|rs| - 1];
      var before := IdsFor(init, name);
      forall k | 0 <= k < |before|
        ensures exists i | 0 <= i < |rs| :: rs[i].itemid == name && rs[i].workshopid == before[k]
      {
        var i :| 0 <= i < |init| && init[i].itemid == name && init[i].workshopid == before[k];
        assert rs[i] == init[i];
      }
      assert before != [] ==> exists i | 0 <= i < |rs| :: rs[i].itemid == name by {
        if before != [] {
          var i :| 0 <= i < |init| && init[i].itemid == name;
          assert rs[i] == init[i];
        }
      }
      before + (if last.itemid == name then [last.workshopid] else [])
  }

  /** The filter `workshopid > -1` works record by record: it splits over a concatenation... */
  lemma {:induction false} ResolvedConcat(a: seq<Record>, b: seq<Record>)
    ensures Resolved(a + b) == Resolved(a) + Resolved(b)
    decreases |b|
  {
    if b == [] {
      assert a + b == a;
    } else {
      var init := b[..|b| - 1];
      assert (a + b)[..|a + b| - 1] == a + init;
      assert (a + b)[|a + b| - 1] == b[|b| - 1];
      ResolvedConcat(a, init);
    }
  }

  /** ...and keeps a single record exactly when its workshop id is above -1. */
  lemma ResolvedOne(x: Record)
    ensures Resolved([x]) == if x.workshopid > -1 then [x] else []
  {
    assert [x][..0] == [];
  }

  /** The ids of an item split over a concatenation of records... */
  lemma {:induction false} IdsForConcat(a: seq<Record>, b: seq<Record>, name: string)
    ensures IdsFor(a + b, name) == IdsFor(a, name) + IdsFor(b, name)
    decreases |b|
  {
    if b == [] {
      assert a + b == a;
    } else {
      var init := b[..|b| - 1];
      assert (a + b)[..|a + b| - 1] == a + init;
      assert (a + b)[|a + b| - 1] == b[|b| - 1];
      IdsForConcat(a, init, name);
    }
  }

  /** ...and a single record gives its own id exactly when it is of that item. */
  lemma IdsForOne(x: Record, name: string)
    ensures IdsFor([x], name) == if x.itemid == name then [x.workshopid] else []
  {
    assert [x][..0] == [];
  }

  /**
   * Every record puts its own workshop id into its item's ids, at the
   * position given by the number of records of that item before it.
   */
  lemma IdsForHoldsRecord(rs: seq<Record>, i: nat)
    requires i < |rs|
    ensures var name := rs[i].itemid;
      var pos := |IdsFor(rs[..i], name)|;
      pos < |IdsFor(rs, name)| && IdsFor(rs, name)[pos] == rs[i].workshopid
  {
    var name := rs[i].itemid;
    assert rs == rs[..i] + ([rs[i]] + rs[i + 1..]);
    IdsForConcat(rs[..i], [rs[i]] + rs[i + 1..], name);
    IdsForConcat([rs[i]], rs[i + 1..], name);
    IdsForOne(rs[i], name);
  }

  /**
   * A later record of the same item sits at a later position: the ids are
   * the item's records in order, none dropped and none merged.
   */
  lemma IdsForKeepsOrder(rs: seq<Record>, i: nat, j: nat)
    requires i < j < |rs| && rs[i].itemid == rs[j].itemid
    ensures |IdsFor(rs[..i], rs[i].itemid)| < |IdsFor(rs[..j], rs[j].itemid)|
  {
    var name := rs[i].itemid;
    assert rs[..j] == rs[..i] + rs[i..j];
    IdsForConcat(rs[..i], rs[i..j], name);
    assert rs[i..j][0].itemid == name;
  }

  /**
   * The configuration the grouping is meant to produce: one group per
   * distinct item id in first-encounter order, holding that item's workshop
   * ids in record order, with an empty permission.
   */
  function Expected(rs: seq<Record>): (groups: seq<Group>)
    ensures |groups| == |Shortnames(rs)|
    ensures forall g | 0 <= g < |groups| :: groups[g].skins != []
  {
    var names := Shortnames(rs);
    assert forall g | 0 <= g < |names| :: IdsFor(rs, names[g]) != [] by {
      forall g | 0 <= g < |names| ensures IdsFor(rs, names[g]) != [] {
        assert names[g] in ItemIdsOf(rs);
        var i :| 0 <= i < |rs| && ItemIdsOf(rs)[i] == names[g];
        assert rs[i].itemid == names[g];
      }
    }
    seq(|names|, g requires 0 <= g < |names| => Group(names[g], "", IdsFor(rs, names[g])))
  }

  /** `acc.find(a => a["Item Shortname"] === name)`, as a position. */
  function FindGroup(acc: seq<Group>, name: string): (r: Option<nat>)
    ensures r.Some? ==> r.value < |acc| && acc[r.value].shortname == name
    ensures r.Some? ==> forall h | 0 <= h < r.value :: acc[h].shortname != name
    ensures r.None? ==> forall g | 0 <= g < |acc| :: acc[g].shortname != name
  {
    if acc == [] then None
    else if acc[0].shortname == name then Some(0)
    else
      match FindGroup(acc[1..], name)
      case None => None
      case Some(k) => Some(k + 1)
  }

  /**
   * One step of the reduce (index.js:81-93) keeps the accumulator equal to
   * the expected configuration of the records seen so far.
   */
  lemma ExpectedStep(rs: seq<Record>, r: Record)
    ensures var e := Expected(rs);
      var e' := Expected(rs + [r]);
      match FindGroup(e, r.itemid)
      case Some(g) => g < |e| && e' == e[g := e[g].(skins := e[g].skins + [r.workshopid])]
      case None => e' == e + [Group(r.itemid, "", [r.workshopid])]
  {
    var rs' := rs + [r];
    assert rs'[..|rs|] == rs;
    var names := Shortnames(rs);
    var e := Expected(rs);
    var e' := Expected(rs');
    assert forall n :: IdsFor(rs', n) == IdsFor(rs, n) + (if r.itemid == n then [r.workshopid] else []);
    match FindGroup(e, r.itemid)
    case Some(g) =>
      assert names[g] == r.itemid;
      assert Shortnames(rs') == names;
      forall h | 0 <= h < |e| ensures e'[h] == e[g := e[g].(skins := e[g].skins + [r.workshopid])][h] {
        if h != g {
          assert names[h] != r.itemid;
        }
      }
    case None =>
      assert r.itemid !in names by {
        forall h | 0 <= h < |names| ensures names[h] != r.itemid {
          assert e[h].shortname == names[h];
        }
      }
      assert Shortnames(rs') == names + [r.itemid];
      assert IdsFor(rs, r.itemid) == [] by {
        forall i | 0 <= i < |rs| ensures rs[i].itemid != r.itemid {
          assert rs[i].itemid in names;
        }
      }
      forall h | 0 <= h < |e'| ensures e'[h] == (e + [Group(r.itemid, "", [r.workshopid])])[h] {
        if h < |e| {
          assert names[h] != r.itemid;
        }
      }
  }

  /**
   * generatePluginConfig without the file write: the "Skins" array it
   * builds from the cache.
   */
  method GeneratePluginConfig(cache: seq<Record>) returns (skins: seq<Group>)
    ensures skins == Expected(Resolved(cache))
    ensures forall g | g in skins :: g.permission == ""
  {
    var resolved := Resolved(cache);
    skins := [];
    for i := 0 to |resolved|
      invariant skins == Expected(resolved[..i])
    {
      var curr := resolved[i];
      ExpectedStep(resolved[..i], curr);
      assert resolved[..i + 1] == resolved[..i] + [curr];
      var previousItem := FindGroup(skins, curr.itemid);
      match previousItem {
        case Some(g) =>
          skins := skins[g := skins[g].(skins := skins[g].skins + [curr.workshopid])];
        case None =>
          skins := skins + [Group(curr.itemid, "", [curr.workshopid])];
      }
    }
    assert resolved[..|resolved|] == resolved;
  }

  /** The number of skin ids over all groups. */
  function TotalSkins(groups: seq<Group>): nat
  {
    if groups == [] then 0
    else TotalSkins(groups[..|groups| - 1]) + |groups[|groups| - 1].skins|
  }

  lemma {:induction false} TotalSkinsPush(groups: seq<Group>, g: nat, id: int)
    requires g < |groups|
    ensures TotalSkins(groups[g := groups[g].(skins := groups[g].skins + [id])]) == TotalSkins(groups) + 1
    decreases |groups|
  {
    var n := |groups| - 1;
    var pushed := groups[g := groups[g].(skins := groups[g].skins + [id])];
    if g < n {
      assert pushed[..n] == groups[..n][g := groups[g].(skins := groups[g].skins + [id])];
      TotalSkinsPush(groups[..n], g, id);
    } else {
      assert pushed[..n] == groups[..n];
    }
  }

  /** Every resolved record puts exactly one skin id into the configuration. */
  lemma {:induction false} ExpectedTotal(rs: seq<Record>)
    ensures TotalSkins(Expected(rs)) == |rs|
    decreases |rs|
  {
    if rs != [] {
      var init := rs[..|rs| - 1];
      var r := rs[|rs| - 1];
      assert rs == init + [r];
      ExpectedTotal(init);
      ExpectedStep(init, r);
      var e := Expected(init);
      match FindGroup(e, r.itemid)
      case Some(g) => TotalSkinsPush(e, g, r.workshopid);
      case None => assert (e + [Group(r.itemid, "", [r.workshopid])])[..|e|] == e;
    }
  }

  /** `names` lists its item ids in the order of their first occurrence in `ids`. */
  predicate FirstEncounterOrder(names: seq<string>, ids: seq<string>)
  {
    && (forall n | n in names :: n in ids)
    && forall a, b | 0 <= a < b < |names| :: IndexIn(ids, names[a]) < IndexIn(ids, names[b])
  }

  /** Groups come in the order in which their item ids first occur among the records. */
  lemma {:induction false} ShortnamesFirstEncounter(rs: seq<Record>)
    ensures FirstEncounterOrder(Shortnames(rs), ItemIdsOf(rs))
    decreases |rs|
  {
    if rs != [] {
      var init := rs[..|rs| - 1];
      var id := rs[|rs| - 1].itemid;
      var ids, ids0 := ItemIdsOf(rs), ItemIdsOf(init);
      ShortnamesFirstEncounter(init);
      var before := Shortnames(init);
      var names := Shortnames(rs);
      assert ids == ids0 + [id];
      forall a | 0 <= a < |before| ensures IndexIn(ids, before[a]) == IndexIn(ids0, before[a]) {
        IndexInExtended(ids0, id, before[a]);
      }
      if id in before {
        assert names == before;
        forall a, b | 0 <= a < b < |names| ensures IndexIn(ids, names[a]) < IndexIn(ids, names[b]) {
          assert IndexIn(ids0, before[a]) < IndexIn(ids0, before[b]);
        }
      } else {
        assert names == before + [id];
        assert id !in ids0;
        assert IndexIn(ids, id) == |init| by {
          assert ids[..|init|] == ids0;
        }
        forall a, b | 0 <= a < b < |names| ensures IndexIn(ids, names[a]) < IndexIn(ids, names[b]) {
          assert names[a] == before[a];
          if b < |before| {
            assert names[b] == before[b];
            assert IndexIn(ids0, before[a]) < IndexIn(ids0, before[b]);
          }
        }
      }
    }
  }

  /**
   * The configuration built from a cache (index.js:80-94) has one group per
   * distinct item id of the resolved records: no two groups share a
   * shortname, and every resolved record has the group of its item.
   */
  lemma ConfigGroupsByItem(cache: seq<Record>)
    ensures var rs := Resolved(cache);
      var config := Expected(rs);
      && (forall a, b | 0 <= a < b < |config| :: config[a].shortname != config[b].shortname)
      && (forall i | 0 <= i < |rs| :: exists g | 0 <= g < |config| :: config[g].shortname == rs[i].itemid)
  {
    var rs := Resolved(cache);
    var config := Expected(rs);
    var names := Shortnames(rs);
    forall a, b | 0 <= a < b < |config| ensures config[a].shortname != config[b].shortname {
      assert config[a].shortname == names[a] && config[b].shortname == names[b];
    }
    forall i | 0 <= i < |rs| ensures exists g | 0 <= g < |config| :: config[g].shortname == rs[i].itemid {
      assert ItemIdsOf(rs)[i] == rs[i].itemid;
      assert rs[i].itemid in ItemIdsOf(rs);
      var g :| 0 <= g < |names| && names[g] == rs[i].itemid;
      assert config[g].shortname == rs[i].itemid;
    }
  }

  /**
   * Every resolved record's workshop id is in its item's group, at the
   * position of the record among that item's records (index.js:80-89).
   */
  lemma ConfigHoldsEveryRecord(cache: seq<Record>, i: nat)
    requires i < |Resolved(cache)|
    ensures exists g | 0 <= g < |Expected(Resolved(cache))| ::
      && Expected(Resolved(cache))[g].shortname == Resolved(cache)[i].itemid
      && |IdsFor(Resolved(cache)[..i], Resolved(cache)[i].itemid)| < |Expected(Resolved(cache))[g].skins|
      && Expected(Resolved(cache))[g].skins[|IdsFor(Resolved(cache)[..i], Resolved(cache)[i].itemid)|]
         == Resolved(cache)[i].workshopid
  {
    var rs := Resolved(cache);
    var config := Expected(rs);
    ConfigGroupsByItem(cache);
    var g :| 0 <= g < |config| && config[g].shortname == rs[i].itemid;
    assert config[g].skins == IdsFor(rs, rs[i].itemid);
    IdsForHoldsRecord(rs, i);
  }

  /**
   * Every id in a group is the workshop id of a cache record of that item
   * whose workshop id is above -1: unresolved records add nothing.
   */
  lemma ConfigOnlyResolvedIds(cache: seq<Record>)
    ensures var config := Expected(Resolved(cache));
      forall g, k | 0 <= g < |config| && 0 <= k < |config[g].skins| ::
        exists x | x in cache :: x.workshopid > -1 && x.itemid == config[g].shortname && x.workshopid == config[g].skins[k]
  {
    var rs := Resolved(cache);
    var config := Expected(rs);
    forall g, k | 0 <= g < |config| && 0 <= k < |config[g].skins|
      ensures exists x | x in cache :: x.workshopid > -1 && x.itemid == config[g].shortname && x.workshopid == config[g].skins[k]
    {
      var i := GroupIdSource(rs, g, k);
      var x := rs[i];
      assert x in rs;
      assert x in cache && x.workshopid > -1;
    }
  }

  /** The record a group's id comes from, as a position among the records. */
  lemma GroupIdSource(rs: seq<Record>, g: nat, k: nat) returns (i: nat)
    requires g < |Expected(rs)| && k < |Expected(rs)[g].skins|
    ensures i < |rs| && rs[i].itemid == Expected(rs)[g].shortname && rs[i].workshopid == Expected(rs)[g].skins[k]
  {
    var config := Expected(rs);
    var ids := IdsFor(rs, config[g].shortname);
    assert config[g].skins == ids;
    i :| 0 <= i < |rs| && rs[i].itemid == config[g].shortname && rs[i].workshopid == ids[k];
  }

  /** A new item id opens a group at the end of the configuration. */
  lemma ExpectedNewItem(rs: seq<Record>, r: Record)
    requires FindGroup(Expected(rs), r.itemid) == None
    ensures Expected(rs + [r]) == Expected(rs) + [Group(r.itemid, "", [r.workshopid])]
  {
    ExpectedStep(rs, r);
  }

  /** A known item id adds its workshop id to the end of its group. */
  lemma ExpectedKnownItem(rs: seq<Record>, r: Record, g: nat)
    requires FindGroup(Expected(rs), r.itemid) == Some(g)
    ensures g < |Expected(rs)|
    ensures Expected(rs + [r]) == Expected(rs)[g := Expected(rs)[g].(skins := Expected(rs)[g].skins + [r.workshopid])]
  {
    ExpectedStep(rs, r);
  }

  lemma ResolvedOfFour(x: Record, y: Record, w: Record, z: Record)
    requires x.workshopid > -1 && y.workshopid > -1 && z.workshopid > -1 && w.workshopid == -1
    ensures Resolved([x, y, w, z]) == [x, y, z]
  {
    var s1, s2, s3, s4 := [x], [x, y], [x, y, w], [x, y, w, z];
    assert s4[..3] == s3 && s3[..2] == s2 && s2[..1] == s1 && s1[..0] == [];
    assert Resolved(s1) == [x];
    assert Resolved(s2) == [x, y];
    assert Resolved(s3) == [x, y];
  }

  /** One record makes one group. */
  lemma GroupingOfOne(x: Record)
    ensures Expected([x]) == [Group(x.itemid, "", [x.workshopid])]
  {
    var s0: seq<Record> := [];
    assert Expected(s0) == [];
    ExpectedNewItem(s0, x);
    assert s0 + [x] == [x];
  }

  /** Two records of different items make two groups, in record order. */
  lemma GroupingOfTwo(x: Record, y: Record)
    requires x.itemid != y.itemid
    ensures Expected([x, y]) == [Group(x.itemid, "", [x.workshopid]), Group(y.itemid, "", [y.workshopid])]
  {
    var a := Group(x.itemid, "", [x.workshopid]);
    GroupingOfOne(x);
    assert FindGroup([a], y.itemid) == None by {
      assert [a][1..] == [];
    }
    ExpectedNewItem([x], y);
    assert [x] + [y] == [x, y];
  }

  /** A record of the first group's item joins that group at its end. */
  lemma JoinsFirstGroup(rs: seq<Record>, z: Record, a: Group, b: Group)
    requires Expected(rs) == [a, b] && a.shortname == z.itemid
    ensures Expected(rs + [z]) == [a.(skins := a.skins + [z.workshopid]), b]
  {
    assert FindGroup([a, b], z.itemid) == Some(0);
    ExpectedKnownItem(rs, z, 0);
  }

  /**
   * The grouping of a cache holding, in this order, a skin of item A, a
   * skin of item B, an unresolved record and a second skin of item A: two
   * groups, A first with both its ids in cache order, then B.
   */
  lemma GroupingExample(x: Record, y: Record, w: Record, z: Record)
    requires x.workshopid > -1 && y.workshopid > -1 && z.workshopid > -1 && w.workshopid == -1
    requires x.itemid == z.itemid && x.itemid != y.itemid
    ensures Expected(Resolved([x, y, w, z]))
         == [Group(x.itemid, "", [x.workshopid, z.workshopid]), Group(y.itemid, "", [y.workshopid])]
  {
    var a, b := Group(x.itemid, "", [x.workshopid]), Group(y.itemid, "", [y.workshopid]);
    ResolvedOfFour(x, y, w, z);
    GroupingOfTwo(x, y);
    JoinsFirstGroup([x, y], z, a, b);
    assert a.skins + [z.workshopid] == [x.workshopid, z.workshopid];
    assert [x, y] + [z] == [x, y, z];
  }
}
