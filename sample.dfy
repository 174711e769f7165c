/** The sample campus that Main.java:163-176 builds at start-up, and the route the
    finder gives on it from the Library to the Auditorium. */
module Sample {
  import opened Names
  import opened Graphs
  import opened Campus
  import opened Router

  /** The registry keys of the five sample buildings. */
  lemma SampleKeys()
    ensures Normalize("Library") == "library" && Normalize("Cafeteria") == "cafeteria"
    ensures Normalize("Lab") == "lab" && Normalize("Auditorium") == "auditorium"
    ensures Normalize("Admin") == "admin"
  {
    NormalizeSpelledOut("Library", "library");
    NormalizeSpelledOut("Cafeteria", "cafeteria");
    NormalizeSpelledOut("Lab", "lab");
    NormalizeSpelledOut("Auditorium", "auditorium");
    NormalizeSpelledOut("Admin", "admin");
  }

  /** A name without surrounding blanks normalises to its lower-case spelling. */
  lemma NormalizeSpelledOut(name: string, key: string)
    requires name != [] && !IsBlank(name[0]) && !IsBlank(name[|name| - 1])
    requires |key| == |name| && forall i :: 0 <= i < |name| ==> key[i] == LowerChar(name[i])
    ensures Normalize(name) == key
  {
    TrimSplit(name, [], name, []);
    assert [] + name + [] == name;
  }

  /** The adjacency after the five connections of Main.java:170-174. */
  function SampleGraph(): Graph<Key> {
    map[
      "library" := map["cafeteria" := 5, "lab" := 10, "admin" := 25],
      "cafeteria" := map["library" := 5, "auditorium" := 15],
      "lab" := map["library" := 10, "auditorium" := 20],
      "auditorium" := map["cafeteria" := 15, "lab" := 20],
      "admin" := map["library" := 25]
    ]
  }

  /** The display names under each key. */
  function SampleNames(): map<Key, string> {
    map["library" := "Library", "cafeteria" := "Cafeteria", "lab" := "Lab",
        "auditorium" := "Auditorium", "admin" := "Admin"]
  }

  /** The five unconnected keys. */
  function SampleKeysOnly(): Graph<Key> {
    map["library" := map[], "cafeteria" := map[], "lab" := map[], "auditorium" := map[], "admin" := map[]]
  }

  /** Main.java:163-176: a fresh registry, the five buildings, then the five connections. */
  method InitializeSampleMap() returns (m: CampusMap)
    ensures fresh(m) && m.Valid()
    ensures m.Adjacency() == SampleGraph() && LabelsOf(m.buildings) == SampleNames()
  {
    m := new CampusMap();
    AddSampleBuildings(m);
    ConnectSampleBuildings(m);
  }

  /** One addBuilding call of Main.java:165-169, for a name whose key is not yet taken. */
  method AddSample(m: CampusMap, name: string, x: int, y: int, ghost key: Key,
                   ghost g: Graph<Key>, ghost labels: map<Key, string>)
    requires m.Valid() && Normalize(name) == key && m.Adjacency() == g && LabelsOf(m.buildings) == labels && key !in g
    modifies m
    ensures m.Valid() && m.Adjacency() == g[key := map[]] && LabelsOf(m.buildings) == labels[key := name]
    ensures forall b :: b in m.buildings.Values ==> b in old(m.buildings.Values) || fresh(b)
  {
    var status := m.AddBuilding(name, x, y);
    LabelsOfFile(old(m.buildings), key, m.buildings[key]);
  }

  /** Main.java:165-169. */
  method AddSampleBuildings(m: CampusMap)
    requires m.Valid() && m.buildings == map[]
    modifies m
    ensures m.Valid() && m.Adjacency() == SampleKeysOnly() && LabelsOf(m.buildings) == SampleNames()
    ensures forall b :: b in m.buildings.Values ==> fresh(b)
  {
    AddLibraryAndCafeteria(m);
    AddLabAndAuditorium(m);
    AddAdmin(m);
  }

  /** Main.java:165-166. */
  method AddLibraryAndCafeteria(m: CampusMap)
    requires m.Valid() && m.buildings == map[]
    modifies m
    ensures m.Valid() && m.Adjacency() == map["library" := map[], "cafeteria" := map[]]
    ensures LabelsOf(m.buildings) == map["library" := "Library", "cafeteria" := "Cafeteria"]
    ensures forall b :: b in m.buildings.Values ==> fresh(b)
  {
    assert Normalize("Library") == "library" && Normalize("Cafeteria") == "cafeteria" by {
      SampleKeys();
    }
    AddSample(m, "Library", 0, 0, "library", map[], map[]);
    AddSample(m, "Cafeteria", 0, 1, "cafeteria", map["library" := map[]], map["library" := "Library"]);
  }

  /** Main.java:167-168. */
  method AddLabAndAuditorium(m: CampusMap)
    requires m.Valid() && m.Adjacency() == map["library" := map[], "cafeteria" := map[]]
    requires LabelsOf(m.buildings) == map["library" := "Library", "cafeteria" := "Cafeteria"]
    modifies m
    ensures m.Valid() && m.Adjacency() == map["library" := map[], "cafeteria" := map[], "lab" := map[], "auditorium" := map[]]
    ensures LabelsOf(m.buildings) == map["library" := "Library", "cafeteria" := "Cafeteria", "lab" := "Lab", "auditorium" := "Auditorium"]
    ensures forall b :: b in m.buildings.Values ==> b in old(m.buildings.Values) || fresh(b)
  {
    assert Normalize("Lab") == "lab" && Normalize("Auditorium") == "auditorium" by {
      SampleKeys();
    }
    AddSample(m, "Lab", 1, 0, "lab", map["library" := map[], "cafeteria" := map[]],
              map["library" := "Library", "cafeteria" := "Cafeteria"]);
    AddSample(m, "Auditorium", 1, 1, "auditorium", map["library" := map[], "cafeteria" := map[], "lab" := map[]],
              map["library" := "Library", "cafeteria" := "Cafeteria", "lab" := "Lab"]);
  }

  /** Main.java:169. */
  method AddAdmin(m: CampusMap)
    requires m.Valid() && m.Adjacency() == map["library" := map[], "cafeteria" := map[], "lab" := map[], "auditorium" := map[]]
    requires LabelsOf(m.buildings) == map["library" := "Library", "cafeteria" := "Cafeteria", "lab" := "Lab", "auditorium" := "Auditorium"]
    modifies m
    ensures m.Valid() && m.Adjacency() == SampleKeysOnly() && LabelsOf(m.buildings) == SampleNames()
    ensures forall b :: b in m.buildings.Values ==> b in old(m.buildings.Values) || fresh(b)
  {
    assert Normalize("Admin") == "admin" by {
      SampleKeys();
    }
    AddSample(m, "Admin", 2, 0, "admin",
              map["library" := map[], "cafeteria" := map[], "lab" := map[], "auditorium" := map[]],
              map["library" := "Library", "cafeteria" := "Cafeteria", "lab" := "Lab", "auditorium" := "Auditorium"]);
  }

  /** Main.java:170-174. */
  method ConnectSampleBuildings(m: CampusMap)
    requires m.Valid() && m.Adjacency() == SampleKeysOnly()
    modifies m.buildings.Values
    ensures m.Valid() && m.Adjacency() == SampleGraph() && m.buildings == old(m.buildings)
  {
    SampleKeys();
    assert m.Adjacency() == SampleStage(0);
    var status := m.ConnectBuildings("Library", "Cafeteria", 5);
    ConnectLibraryCafeteria();
    assert m.Adjacency() == SampleStage(1);
    status := m.ConnectBuildings("Library", "Lab", 10);
    ConnectLibraryLab();
    assert m.Adjacency() == SampleStage(2);
    status := m.ConnectBuildings("Cafeteria", "Auditorium", 15);
    ConnectCafeteriaAuditorium();
    assert m.Adjacency() == SampleStage(3);
    status := m.ConnectBuildings("Lab", "Auditorium", 20);
    ConnectLabAuditorium();
    assert m.Adjacency() == SampleStage(4);
    status := m.ConnectBuildings("Admin", "Library", 25);
    ConnectAdminLibrary();
  }

  /** The adjacency after the first n connections of Main.java:170-174; the fifth
      gives SampleGraph. */
  function SampleStage(n: nat): Graph<Key>
    requires n < 5
  {
    if n == 0 then SampleKeysOnly()
    else if n == 1 then
      map["library" := map["cafeteria" := 5], "cafeteria" := map["library" := 5],
          "lab" := map[], "auditorium" := map[], "admin" := map[]]
    else if n == 2 then
      map["library" := map["cafeteria" := 5, "lab" := 10], "cafeteria" := map["library" := 5],
          "lab" := map["library" := 10], "auditorium" := map[], "admin" := map[]]
    else if n == 3 then
      map["library" := map["cafeteria" := 5, "lab" := 10], "cafeteria" := map["library" := 5, "auditorium" := 15],
          "lab" := map["library" := 10], "auditorium" := map["cafeteria" := 15], "admin" := map[]]
    else
      map["library" := map["cafeteria" := 5, "lab" := 10], "cafeteria" := map["library" := 5, "auditorium" := 15],
          "lab" := map["library" := 10, "auditorium" := 20], "auditorium" := map["cafeteria" := 15, "lab" := 20],
          "admin" := map[]]
  }

  lemma ConnectLibraryCafeteria()
    ensures Connect(SampleStage(0), "library", "cafeteria", 5) == SampleStage(1)
  {
  }

  lemma ConnectLibraryLab()
    ensures Connect(SampleStage(1), "library", "lab", 10) == SampleStage(2)
  {
  }

  lemma ConnectCafeteriaAuditorium()
    ensures Connect(SampleStage(2), "cafeteria", "auditorium", 15) == SampleStage(3)
  {
  }

  lemma ConnectLabAuditorium()
    ensures Connect(SampleStage(3), "lab", "auditorium", 20) == SampleStage(4)
  {
  }

  lemma ConnectAdminLibrary()
    ensures Connect(SampleStage(4), "admin", "library", 25) == SampleGraph()
  {
  }

  /** The distances from the Library over the sample adjacency. */
  function SampleDistances(): map<Key, int> {
    map["library" := 0, "cafeteria" := 5, "lab" := 10, "auditorium" := 20, "admin" := 25]
  }

  lemma SampleDistancesAreFixpoint()
    ensures IsFixpoint(SampleGraph(), SampleDistances())
  {
  }

  /** The only edges that meet the distances exactly. */
  lemma SampleTightEdges(u: Key, v: Key)
    requires u in SampleGraph() && v in SampleGraph()[u]
    requires SampleDistances()[v] == SampleDistances()[u] + SampleGraph()[u][v]
    ensures u == "library" || (u, v) == ("cafeteria", "auditorium")
    ensures v != "library"
  {
  }

  /** Library -> Cafeteria -> Auditorium is a route of weight 20. */
  lemma SampleBestRoute()
    ensures IsPath(SampleGraph(), ["library", "cafeteria", "auditorium"], "library", "auditorium")
    ensures Weight(SampleGraph(), ["library", "cafeteria", "auditorium"]) == 20
  {
    var best := ["library", "cafeteria", "auditorium"];
    assert best[..2] == ["library", "cafeteria"];
  }

  /** A route from the Library to the Auditorium made of tight edges only is
      Library -> Cafeteria -> Auditorium. */
  lemma TightSampleRoute(p: seq<Key>)
    requires IsPath(SampleGraph(), p, "library", "auditorium")
    requires forall i :: 0 <= i < |p| ==> p[i] in SampleDistances()
    requires forall i :: 0 <= i < |p| - 1 ==>
               SampleDistances()[p[i + 1]] == SampleDistances()[p[i]] + SampleGraph()[p[i]][p[i + 1]]
    ensures p == ["library", "cafeteria", "auditorium"]
  {
    var n := |p|;
    assert n >= 2;
    SampleTightEdges(p[n - 2], p[n - 1]);
    assert n >= 3;
    SampleTightEdges(p[n - 3], p[n - 2]);
    if n > 3 {
      SampleTightEdges(p[n - 4], p[n - 3]);
    }
  }

  /** Library -> Cafeteria -> Auditorium, of weight 20, is the one shortest route. */
  lemma OnlyShortestSampleRoute(p: seq<Key>)
    requires IsShortestPath(SampleGraph(), p, "library", "auditorium")
    ensures p == ["library", "cafeteria", "auditorium"] && Weight(SampleGraph(), p) == 20
  {
    var g, d := SampleGraph(), SampleDistances();
    SampleDistancesAreFixpoint();
    SampleBestRoute();
    FixpointBoundsPaths(g, d, "library", p, "auditorium");
    OptimalPathIsTight(g, d, "library", p, "auditorium");
    TightSampleRoute(p);
  }

  /** What the finder promises about the sample campus leaves it one answer. */
  lemma SampleAnswer(m: CampusMap, r: Route, route: seq<Key>)
    requires m.Adjacency() == SampleGraph() && LabelsOf(m.buildings) == SampleNames()
    requires r == UnknownBuilding <==> "library" !in m.buildings || "auditorium" !in m.buildings
    requires r == NoPathFound <==>
               && "library" in m.buildings && "auditorium" in m.buildings
               && !Reachable(m.Adjacency(), "library", "auditorium")
    requires r.Path? ==>
               && IsShortestPath(m.Adjacency(), route, "library", "auditorium")
               && |r.names| == |route|
               && forall i :: 0 <= i < |route| ==> r.names[i] == m.buildings[route[i]].name
    ensures r == Path(["Library", "Cafeteria", "Auditorium"])
  {
    var g := SampleGraph();
    assert m.buildings.Keys == g.Keys;
    assert IsPath(g, ["library", "cafeteria", "auditorium"], "library", "auditorium");
    OnlyShortestSampleRoute(route);
    assert r.names == ["Library", "Cafeteria", "Auditorium"] by {
      forall i | 0 <= i < |route| ensures r.names[i] == SampleNames()[route[i]] {
        assert LabelsOf(m.buildings)[route[i]] == m.buildings[route[i]].name;
      }
    }
  }

  /** Main.java:163-176 and a query from the Library to the Auditorium. */
  method SampleRoute() returns (r: Route)
    ensures r == Path(["Library", "Cafeteria", "Auditorium"])
  {
    var m := InitializeSampleMap();
    assert Normalize("Library") == "library" && Normalize("Auditorium") == "auditorium" by {
      SampleKeys();
    }
    NonNegativeSample();
    ghost var route;
    r, route := FindShortestRoute(m, "Library", "Auditorium");
    SampleAnswer(m, r, route);
  }

  lemma NonNegativeSample()
    ensures NonNegative(SampleGraph())
  {
  }
}
