/** The campus registry (Main.java:6-100): a map from normalised name to Building,
    each Building owning a neighbour map that the registry edits in place. */
module Campus {
  import opened Names
  import opened Graphs

  datatype Option<T> = None | Some(value: T)

  /** What each edit reports on the console (Main.java:13, 15, 21, 24, 32, 33, 39, 42). */
  datatype Status = Added | AlreadyExists | Removed | NotFound | Connected | Disconnected | InvalidNames

  /** One printed line of the connection listing: from, distance, to. */
  datatype Connection = Connection(from: string, to: string, distance: int)

  class Building {
    const name: string
    const x: int
    const y: int
    /** The registry key of the name, fixed when the building is made (Main.java:12, 14). */
    const key: Key
    /** The neighbour's registry key -> distance. */
    var neighbors: map<Key, int>

    constructor (name: string, x: int, y: int)
      ensures this.name == name && this.x == x && this.y == y
      ensures key == Normalize(name)
      ensures neighbors == map[]
    {
      this.name := name;
      this.x := x;
      this.y := y;
      key := Normalize(name);
      neighbors := map[];
    }

    /** Records or replaces the distance to a neighbour (Main.java:96). */
    method AddNeighbor(neighbor: Building, distance: int)
      modifies this
      ensures neighbors == old(neighbors)[neighbor.key := distance]
    {
      neighbors := neighbors[neighbor.key := distance];
    }

    /** Forgets a neighbour, if it was one (the map removals at Main.java:22, 40-41). */
    method RemoveNeighbor(neighbor: Building)
      modifies this
      ensures neighbors == old(neighbors) - {neighbor.key}
    {
      neighbors := neighbors - {neighbor.key};
    }
  }

  /** Registered key -> display name. Names never change, so this depends on the
      registry map alone. */
  function LabelsOf(bs: map<Key, Building>): (r: map<Key, string>)
    ensures r.Keys == bs.Keys && forall k :: k in bs ==> r[k] == bs[k].name
  {
    map k | k in bs :: bs[k].name
  }

  /** Each building's key is the normalised form of its display name. */
  ghost predicate Named(bs: map<Key, Building>) {
    forall k :: k in bs ==> Normalize(bs[k].name) == k
  }

  /** Filing a building under a new key adds its name to the labels. */
  lemma LabelsOfFile(bs: map<Key, Building>, k: Key, b: Building)
    requires k !in bs
    ensures LabelsOf(bs[k := b]) == LabelsOf(bs)[k := b.name]
  {
  }

  /** Filing a building under a new key keeps every key the normalised name of its
      building exactly when the new key is. */
  lemma NamedFile(bs: map<Key, Building>, k: Key, b: Building)
    requires k !in bs
    ensures Named(bs[k := b]) <==> Named(bs) && Normalize(b.name) == k
  {
    var after := bs[k := b];
    if Named(after) {
      assert after[k] == b;
      forall u | u in bs ensures Normalize(bs[u].name) == u {
        assert after[u] == bs[u];
      }
    }
    if Named(bs) && Normalize(b.name) == k {
      forall u | u in after ensures Normalize(after[u].name) == u {
        if u != k {
          assert after[u] == bs[u];
        }
      }
    }
  }

  class CampusMap {
    var buildings: map<Key, Building>

    /** The adjacency of the whole campus as a value. */
    function Adjacency(): Graph<Key>
      reads this, buildings.Values
    {
      map k | k in buildings :: buildings[k].neighbors
    }

    /** Each building sits under its own key, so distinct keys hold distinct buildings,
        and the adjacency is symmetric and closed. */
    ghost predicate Valid()
      reads this, buildings.Values
    {
      && (forall k :: k in buildings ==> buildings[k].key == k)
      && Consistent(Adjacency())
    }

    constructor ()
      ensures Valid() && buildings == map[]
    {
      buildings := map[];
    }

    /** Main.java:11-16: a name whose key is taken is refused; otherwise a new building
        without neighbours is filed under the key. */
    method AddBuilding(name: string, x: int, y: int) returns (status: Status)
      requires Valid()
      modifies this
      ensures Valid() && (Named(buildings) <==> old(Named(buildings)))
      ensures Normalize(name) in old(buildings) ==>
                status == AlreadyExists && buildings == old(buildings) && Adjacency() == old(Adjacency())
      ensures Normalize(name) !in old(buildings) ==>
                && status == Added
                && Normalize(name) in buildings
                && buildings == old(buildings)[Normalize(name) := buildings[Normalize(name)]]
                && fresh(buildings[Normalize(name)])
                && buildings[Normalize(name)].name == name
                && buildings[Normalize(name)].x == x && buildings[Normalize(name)].y == y
                && Adjacency() == AddNode(old(Adjacency()), Normalize(name))
    {
      var key := Normalize(name);
      if key in buildings {
        return AlreadyExists;
      }
      ghost var before := Adjacency();
      var b := new Building(name, x, y);
      NamedFile(buildings, key, b);
      buildings := buildings[key := b];
      assert Adjacency() == before[key := map[]] by {
        forall u | u in before ensures Adjacency()[u] == before[u] {
          assert buildings[u] == old(buildings)[u];
        }
      }
      AddNodeKeepsConsistent(before, key);
      status := Added;
    }

    /** Main.java:18-25: every building, the removed one included, forgets the removed
        building as a neighbour; then its key leaves the registry. */
    method RemoveBuilding(name: string) returns (status: Status)
      requires Valid()
      modifies this, buildings.Values
      ensures Valid() && (old(Named(buildings)) ==> Named(buildings))
      ensures Normalize(name) !in old(buildings) ==>
                status == NotFound && buildings == old(buildings) && Adjacency() == old(Adjacency())
      ensures Normalize(name) in old(buildings) ==>
                && status == Removed
                && buildings == old(buildings) - {Normalize(name)}
                && (forall b :: b in old(buildings).Values ==> b.neighbors == old(b.neighbors) - {Normalize(name)})
                && Adjacency() == RemoveNode(old(Adjacency()), Normalize(name))
    {
      var key := Normalize(name);
      if key !in buildings {
        return NotFound;
      }
      var toRemove := buildings[key];
      ForgetEverywhere(toRemove);
      buildings := buildings - {key};
      assert Adjacency() == RemoveNode(old(Adjacency()), key) by {
        forall u | u in buildings ensures Adjacency()[u] == old(Adjacency())[u] - {key} {
          assert old(Adjacency())[u] == old(buildings[u].neighbors);
        }
      }
      RemoveNodeKeepsConsistent(old(Adjacency()), key);
      status := Removed;
    }

    /** The loop of Main.java:22: every registered building forgets b as a neighbour. */
    method ForgetEverywhere(b: Building)
      requires forall k :: k in buildings ==> buildings[k].key == k
      modifies buildings.Values
      ensures forall k :: k in buildings ==> buildings[k].neighbors == old(buildings[k].neighbors) - {b.key}
    {
      var pending := buildings.Keys;
      while pending != {}
        invariant pending <= buildings.Keys
        invariant forall k :: k in buildings && k !in pending ==>
                    buildings[k].neighbors == old(buildings[k].neighbors) - {b.key}
        invariant forall k :: k in pending ==> buildings[k].neighbors == old(buildings[k].neighbors)
        decreases pending
      {
        var k :| k in pending;
        buildings[k].RemoveNeighbor(b);
        pending := pending - {k};
      }
    }

    /** Main.java:27-34: both ends must be registered; each then records the other. */
    method ConnectBuildings(from: string, to: string, distance: int) returns (status: Status)
      requires Valid()
      modifies buildings.Values
      ensures Valid() && buildings == old(buildings)
      ensures Normalize(from) in buildings && Normalize(to) in buildings ==>
                status == Connected && Adjacency() == Connect(old(Adjacency()), Normalize(from), Normalize(to), distance)
      ensures !(Normalize(from) in buildings && Normalize(to) in buildings) ==>
                status == InvalidNames && Adjacency() == old(Adjacency())
    {
      var keyFrom, keyTo := Normalize(from), Normalize(to);
      if keyFrom in buildings && keyTo in buildings {
        ghost var before := Adjacency();
        var b1, b2 := buildings[keyFrom], buildings[keyTo];
        b1.AddNeighbor(b2, distance);
        ghost var middle := before[keyFrom := b1.neighbors];
        assert Adjacency() == middle by {
          forall u | u in middle ensures Adjacency()[u] == middle[u] {
            assert u != keyFrom ==> buildings[u].key == u;
          }
        }
        b2.AddNeighbor(b1, distance);
        assert Adjacency() == middle[keyTo := b2.neighbors] by {
          forall u | u in middle ensures Adjacency()[u] == middle[keyTo := b2.neighbors][u] {
            assert u != keyTo ==> buildings[u].key == u;
          }
        }
        ConnectKeepsConsistent(before, keyFrom, keyTo, distance);
        status := Connected;
      } else {
        status := InvalidNames;
      }
    }

    /** Main.java:36-43: both ends must be registered; each then forgets the other. */
    method DisconnectBuildings(from: string, to: string) returns (status: Status)
      requires Valid()
      modifies buildings.Values
      ensures Valid() && buildings == old(buildings)
      ensures Normalize(from) in buildings && Normalize(to) in buildings ==>
                status == Disconnected && Adjacency() == Disconnect(old(Adjacency()), Normalize(from), Normalize(to))
      ensures !(Normalize(from) in buildings && Normalize(to) in buildings) ==>
                status == InvalidNames && Adjacency() == old(Adjacency())
    {
      var keyFrom, keyTo := Normalize(from), Normalize(to);
      if keyFrom !in buildings || keyTo !in buildings {
        return InvalidNames;
      }
      var b1, b2 := buildings[keyFrom], buildings[keyTo];
      ghost var before := Adjacency();
      b1.RemoveNeighbor(b2);
      ghost var middle := before[keyFrom := b1.neighbors];
      assert Adjacency() == middle by {
        forall u | u in middle ensures Adjacency()[u] == middle[u] {
          assert u != keyFrom ==> buildings[u].key == u;
        }
      }
      b2.RemoveNeighbor(b1);
      assert Adjacency() == middle[keyTo := b2.neighbors] by {
        forall u | u in middle ensures Adjacency()[u] == middle[keyTo := b2.neighbors][u] {
          assert u != keyTo ==> buildings[u].key == u;
        }
      }
      DisconnectKeepsConsistent(before, keyFrom, keyTo);
      status := Disconnected;
    }

    /** Main.java:45: lookup by normalised name. */
    function GetBuilding(name: string): (r: Option<Building>)
      reads this
      ensures r.Some? <==> Normalize(name) in buildings
      ensures r.Some? ==> r.value == buildings[Normalize(name)]
    {
      var key := Normalize(name);
      if key in buildings then Some(buildings[key]) else None
    }

    /** Main.java:47-51: the display names of all buildings; each one finds its own building. */
    method GetAllBuildings() returns (names: set<string>)
      ensures forall n :: n in names <==> exists k :: k in buildings && buildings[k].name == n
      ensures Named(buildings) ==> forall n :: n in names ==> GetBuilding(n).Some? && GetBuilding(n).value.name == n
    {
      names := {};
      var pending := buildings.Keys;
      while pending != {}
        invariant pending <= buildings.Keys
        invariant forall n :: n in names <==> exists k :: k in buildings && k !in pending && buildings[k].name == n
        decreases pending
      {
        var k :| k in pending;
        names := names + {buildings[k].name};
        pending := pending - {k};
      }
    }

    /** c is the printed line for the entry e.0 -> e.1 of the current adjacency. */
    ghost predicate Describes(c: Connection, e: (Key, Key))
      reads this, buildings.Values
    {
      && e.0 in buildings && e.1 in buildings[e.0].neighbors && e.1 in buildings
      && c == Connection(buildings[e.0].name, buildings[e.1].name, buildings[e.0].neighbors[e.1])
    }

    /** The enumeration of Main.java:71-88: one line per undirected connection. The
        ends name the entry behind each line. Duplicates are recognised by the pair of
        registry keys rather than by concatenated display names (see ListedAsWritten). */
    method ShowAllConnections() returns (listed: seq<Connection>, ends: seq<(Key, Key)>)
      requires Valid()
      ensures |ends| == |listed|
      ensures forall i :: 0 <= i < |listed| ==> Describes(listed[i], ends[i])
      ensures forall u, v :: u in buildings && v in buildings[u].neighbors ==> (u, v) in ends || (v, u) in ends
      ensures forall i, j :: 0 <= i < j < |ends| ==> ends[j] != ends[i] && ends[j] != (ends[i].1, ends[i].0)
    {
      listed, ends := [], [];
      var printed: set<(Key, Key)> := {};
      var pending := buildings.Keys;
      while pending != {}
        invariant pending <= buildings.Keys
        invariant |ends| == |listed|
        invariant forall i :: 0 <= i < |listed| ==> Describes(listed[i], ends[i])
        invariant forall e :: e in printed <==> e in ends
        invariant forall i, j :: 0 <= i < j < |ends| ==> ends[j] != ends[i] && ends[j] != (ends[i].1, ends[i].0)
        invariant forall u, v :: u in buildings && u !in pending && v in buildings[u].neighbors ==>
                    (u, v) in printed || (v, u) in printed
        decreases pending
      {
        var u :| u in pending;
        var b := buildings[u];
        var todo := b.neighbors.Keys;
        while todo != {}
          invariant todo <= b.neighbors.Keys
          invariant |ends| == |listed|
          invariant forall i :: 0 <= i < |listed| ==> Describes(listed[i], ends[i])
          invariant forall e :: e in printed <==> e in ends
          invariant forall i, j :: 0 <= i < j < |ends| ==> ends[j] != ends[i] && ends[j] != (ends[i].1, ends[i].0)
          invariant forall u', v :: u' in buildings && u' !in pending && v in buildings[u'].neighbors ==>
                      (u', v) in printed || (v, u') in printed
          invariant forall v :: v in b.neighbors && v !in todo ==> (u, v) in printed || (v, u) in printed
          decreases todo
        {
          var v :| v in todo;
          todo := todo - {v};
          if (u, v) !in printed && (v, u) !in printed {
            assert u in Adjacency() && Adjacency()[u] == b.neighbors && v in Adjacency()[u];
            assert v in Adjacency();
            listed := listed + [Connection(b.name, buildings[v].name, b.neighbors[v])];
            ends := ends + [(u, v)];
            printed := printed + {(u, v)};
          }
        }
        pending := pending - {u};
      }
    }
  }

  /** A lookup ignores blanks around the name: " Library " finds the Library. */
  lemma LookupIgnoresPadding(m: CampusMap, pre: string, name: string, post: string)
    requires AllBlank(pre) && AllBlank(post)
    ensures m.GetBuilding(pre + name + post) == m.GetBuilding(name)
  {
    NormalizeIgnoresPadding(pre, name, post);
  }

  /** A lookup ignores the case of the letters: "LIBRARY" finds the Library. */
  lemma LookupIgnoresCase(m: CampusMap, a: string, b: string)
    requires ToLower(a) == ToLower(b)
    ensures m.GetBuilding(a) == m.GetBuilding(b)
  {
    NormalizeIgnoresCase(a, b);
  }

  /** The enumeration exactly as Main.java:71-88 writes it, over one iteration order
      of the directed entries: a line is printed unless the string from + "-" + to,
      or its reverse, was recorded before; the forward string is then recorded. */
  function ListedAsWritten(entries: seq<Connection>, printed: set<string>): (r: seq<Connection>)
    ensures |r| <= |entries|
    ensures forall c :: c in r ==> c in entries
    ensures forall c :: c in r ==> Forward(c) !in printed && Backward(c) !in printed
    ensures forall i, j :: 0 <= i < j < |r| ==>
              Forward(r[j]) != Forward(r[i]) && Backward(r[j]) != Forward(r[i])
    ensures forall c :: c in entries ==>
              c in r || Forward(c) in printed + Recorded(r) || Backward(c) in printed + Recorded(r)
  {
    if entries == [] then []
    else
      var c := entries[0];
      var key, reverseKey := Forward(c), Backward(c);
      if key !in printed && reverseKey !in printed then
        var rest := ListedAsWritten(entries[1..], printed + {key});
        assert ([c] + rest)[1..] == rest;
        [c] + rest
      else ListedAsWritten(entries[1..], printed)
  }

  /** The string Main.java:73 records for a printed line, and its reverse (Main.java:74). */
  function Forward(c: Connection): string {
    c.from + "-" + c.to
  }

  function Backward(c: Connection): string {
    c.to + "-" + c.from
  }

  /** The strings recorded for the printed lines. */
  function Recorded(lines: seq<Connection>): (r: set<string>)
    ensures forall c :: c in lines ==> Forward(c) in r
  {
    if lines == [] then {} else {Forward(lines[0])} + Recorded(lines[1..])
  }

  /** Buildings "a-b", "c", "a" and "b-c" with edges a-b--c and a--b-c: both edges give
      the string "a-b-c", so one of the two edges is never listed. Which one depends on
      the iteration order; this lemma fixes the order in which a--b-c is dropped. */
  lemma NameKeysCollide()
    ensures var entries := [Connection("a-b", "c", 1), Connection("c", "a-b", 1),
                            Connection("a", "b-c", 2), Connection("b-c", "a", 2)];
            ListedAsWritten(entries, {}) == [Connection("a-b", "c", 1)]
  {
    var entries := [Connection("a-b", "c", 1), Connection("c", "a-b", 1),
                    Connection("a", "b-c", 2), Connection("b-c", "a", 2)];
    var k := "a-b" + "-" + "c";
    assert k == "a-b-c";
    assert "c" + "-" + "a-b" == "c-a-b";
    assert "a" + "-" + "b-c" == "a-b-c";
    assert "b-c" + "-" + "a" == "b-c-a";
    assert ListedAsWritten(entries[3..], {k}) == [];
    assert ListedAsWritten(entries[2..], {k}) == [];
    assert ListedAsWritten(entries[1..], {k}) == [];
    var none: set<string> := {};
    assert none + {k} == {k};
    assert ListedAsWritten(entries, {}) == [entries[0]] + ListedAsWritten(entries[1..], {k});
  }
}
