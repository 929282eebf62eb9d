/** The upload form's client pickers: the client list built from Balance
    rows and de-duplicated, the name options and their search, and the
    project and block-lot options that cascade from the chosen name. */
module ClientOptions {
  import opened Js
  import opened Seqs
  import opened Tables

  /** An entry of the client list. */
  datatype Client = Client(name: Value, project: Value, blockLot: string)

  /** The label `Block ${Block} Lot ${Lot}`. */
  function BlockLotLabel(block: Value, lot: Value): string {
    "Block " + ToText(block) + " Lot " + ToText(lot)
  }

  /** A Balance row as a client entry. */
  function ToClient(row: Row): Client {
    Client(Get(row, Name), Get(row, Project), BlockLotLabel(Get(row, Block), Get(row, Lot)))
  }

  /** The de-duplication test: `===` on name, project and label. */
  predicate SameClient(a: Client, b: Client) {
    StrictEq(a.name, b.name) && StrictEq(a.project, b.project) && a.blockLot == b.blockLot
  }

  /** `index === self.findIndex(c => SameClient(c, self[index]))`. */
  predicate IsFirst(s: seq<Client>, i: int)
    requires 0 <= i < |s|
  {
    FindIndex(s, (c: Client) => SameClient(c, s[i])) == i
  }

  /** The entries among the first `n` that pass the de-duplication filter. */
  function KeepFirst(s: seq<Client>, n: nat): seq<Client>
    requires n <= |s|
  {
    if n == 0 then [] else KeepFirst(s, n - 1) + (if IsFirst(s, n - 1) then [s[n - 1]] else [])
  }

  /** The de-duplicated client list. */
  function UniqueClients(s: seq<Client>): seq<Client> {
    KeepFirst(s, |s|)
  }

  /** The upload form's client fetch from Balance: a failed or empty fetch
      leaves the list as it was; otherwise the mapped rows, de-duplicated. */
  function LoadClients(previous: seq<Client>, rows: seq<Row>, fetchOk: bool): (r: seq<Client>)
    ensures !fetchOk || rows == [] ==> r == previous
    ensures fetchOk && rows != [] ==> forall i :: 0 <= i < |r| ==> r[i] in MapSeq(rows, ToClient)
  {
    if !fetchOk || rows == [] then previous
    else
      var r := UniqueClients(MapSeq(rows, ToClient));
      UniqueClientsShape(MapSeq(rows, ToClient));
      r
  }

  lemma SameClientSymmetric(a: Client, b: Client)
    ensures SameClient(a, b) == SameClient(b, a)
  {
  }

  /** An entry passes exactly when it equals itself (no NaN name or project)
      and no earlier entry is the same client. */
  lemma IsFirstIff(s: seq<Client>, i: int)
    requires 0 <= i < |s|
    ensures IsFirst(s, i) <==> SameClient(s[i], s[i]) && forall j :: 0 <= j < i ==> !SameClient(s[j], s[i])
  {
    var p := (c: Client) => SameClient(c, s[i]);
    var k := FindIndex(s, p);
    if SameClient(s[i], s[i]) && forall j :: 0 <= j < i ==> !SameClient(s[j], s[i]) {
      assert p(s[i]);
    }
  }

  /** The kept entries sit at increasing positions of the input, each one a
      first occurrence. */
  lemma {:induction false} KeepFirstEmbedding(s: seq<Client>, n: nat) returns (idx: seq<int>)
    requires n <= |s|
    ensures Embeds(KeepFirst(s, n), s, idx)
    ensures forall k :: 0 <= k < |idx| ==> idx[k] < n && IsFirst(s, idx[k])
  {
    if n == 0 {
      idx := [];
    } else {
      var prev := KeepFirst(s, n - 1);
      var idx' := KeepFirstEmbedding(s, n - 1);
      if IsFirst(s, n - 1) {
        idx := idx' + [n - 1];
        assert KeepFirst(s, n) == prev + [s[n - 1]];
        assert forall k :: 0 <= k < |idx'| ==> idx[k] == idx'[k];
      } else {
        idx := idx';
        assert KeepFirst(s, n) == prev;
      }
    }
  }

  /** Every first occurrence among the first `n` entries is kept. */
  lemma {:induction false} KeepFirstKeeps(s: seq<Client>, n: nat)
    requires n <= |s|
    ensures forall i :: 0 <= i < n && IsFirst(s, i) ==> s[i] in KeepFirst(s, n)
  {
    if n > 0 {
      KeepFirstKeeps(s, n - 1);
      var prev := KeepFirst(s, n - 1);
      var last := if IsFirst(s, n - 1) then [s[n - 1]] else [];
      assert KeepFirst(s, n) == prev + last;
      forall i | 0 <= i < n && IsFirst(s, i) ensures s[i] in prev + last {
        if i < n - 1 {
          assert s[i] in prev;
        } else {
          assert last == [s[i]];
        }
      }
    }
  }

  /** The de-duplicated list keeps the input's order and holds each first
      occurrence. */
  lemma UniqueClientsShape(s: seq<Client>)
    ensures IsSubsequence(UniqueClients(s), s)
    ensures forall i :: 0 <= i < |s| && IsFirst(s, i) ==> s[i] in UniqueClients(s)
    ensures forall k :: 0 <= k < |UniqueClients(s)| ==> UniqueClients(s)[k] in s
  {
    var idx := KeepFirstEmbedding(s, |s|);
    KeepFirstKeeps(s, |s|);
  }

  /** No two entries of the de-duplicated list are the same client. */
  lemma UniqueClientsNoTwins(s: seq<Client>)
    ensures forall i, j :: 0 <= i < j < |UniqueClients(s)| ==> !SameClient(UniqueClients(s)[i], UniqueClients(s)[j])
  {
    var r := UniqueClients(s);
    var idx := KeepFirstEmbedding(s, |s|);
    forall i, j | 0 <= i < j < |r| ensures !SameClient(r[i], r[j]) {
      IsFirstIff(s, idx[j]);
    }
  }

  /** Every entry that equals itself is represented: some kept entry is the
      same client, namely its first occurrence. */
  lemma UniqueClientsCover(s: seq<Client>, i: int)
    requires 0 <= i < |s| && SameClient(s[i], s[i])
    ensures exists k :: 0 <= k < |UniqueClients(s)| && SameClient(UniqueClients(s)[k], s[i])
  {
    var p := (c: Client) => SameClient(c, s[i]);
    var j := FindIndex(s, p);
    assert p(s[i]);
    assert 0 <= j <= i && SameClient(s[j], s[i]);
    var q := (c: Client) => SameClient(c, s[j]);
    FindIndexSameOn(s, q, p);
    assert IsFirst(s, j);
    UniqueClientsShape(s);
    var k :| 0 <= k < |UniqueClients(s)| && UniqueClients(s)[k] == s[j];
  }

  // ----- cascading options -----

  /** `availableProjects`: nothing before a name is chosen, otherwise each
      project listed with that name, once. */
  function AvailableProjects(clients: seq<Client>, name: string): (r: seq<Value>)
    ensures NoDuplicates(r)
  {
    if name == "" then []
    else Distinct(MapSeq(Filter(clients, (c: Client) => StrictEq(c.name, Text(name))), (c: Client) => c.project))
  }

  lemma AvailableProjectsIff(clients: seq<Client>, name: string, v: Value)
    ensures v in AvailableProjects(clients, name)
            <==> name != "" && exists c :: c in clients && c.name == Text(name) && c.project == v
  {
    if name != "" {
      var f := Filter(clients, (c: Client) => StrictEq(c.name, Text(name)));
      MapSeqMembers(f, (c: Client) => c.project, v);
      if exists c :: c in clients && c.name == Text(name) && c.project == v {
        var c :| c in clients && c.name == Text(name) && c.project == v;
        assert c in f;
      }
    }
  }

  /** The entry is listed under both the chosen name and project. */
  predicate ListedUnder(c: Client, name: string, project: string) {
    StrictEq(c.name, Text(name)) && StrictEq(c.project, Text(project))
  }

  /** `availableBlockLots`: nothing before both a name and a project are
      chosen, otherwise each label listed with both, once. */
  function AvailableBlockLots(clients: seq<Client>, name: string, project: string): (r: seq<string>)
    ensures NoDuplicates(r)
  {
    if name == "" || project == "" then []
    else
      Distinct(MapSeq(Filter(clients, (c: Client) => ListedUnder(c, name, project)), (c: Client) => c.blockLot))
  }

  lemma AvailableBlockLotsIff(clients: seq<Client>, name: string, project: string, b: string)
    ensures b in AvailableBlockLots(clients, name, project)
            <==> name != "" && project != "" && exists c :: c in clients && ListedUnder(c, name, project) && c.blockLot == b
  {
    if name != "" && project != "" {
      var f := Filter(clients, (c: Client) => ListedUnder(c, name, project));
      MapSeqMembers(f, (c: Client) => c.blockLot, b);
      if exists c :: c in clients && ListedUnder(c, name, project) && c.blockLot == b {
        var c :| c in clients && ListedUnder(c, name, project) && c.blockLot == b;
        assert c in f;
      }
    }
  }

  // ----- name options -----

  /** The default order of `sort()`: by the values' text. */
  function NameOrder(): Comparator<Value> {
    (a: Value, b: Value) => StringCompare(ToText(a), ToText(b))
  }

  lemma NameOrderIsPreorder()
    ensures TotalPreorder(NameOrder())
  {
    var cmp := NameOrder();
    forall a, b ensures cmp(a, b) == -cmp(b, a) {
      StringCompareAntisymmetric(ToText(a), ToText(b));
    }
    forall a, b, c | cmp(a, b) <= 0 && cmp(b, c) <= 0 ensures cmp(a, c) <= 0 {
      StringCompareTransitive(ToText(a), ToText(b), ToText(c));
    }
  }

  /** `uniqueNames`: each name once, empty names dropped, sorted. */
  function UniqueNames(clients: seq<Client>): seq<Value> {
    SortBy(Filter(Distinct(MapSeq(clients, (c: Client) => Or(c.name, Text("")))), Truthy), NameOrder())
  }

  /** The name options are exactly the truthy names of the list, each once,
      in order. */
  lemma UniqueNamesSpec(clients: seq<Client>, v: Value)
    ensures v in UniqueNames(clients) <==> Truthy(v) && exists c :: c in clients && c.name == v
    ensures NoDuplicates(UniqueNames(clients))
    ensures SortedBy(UniqueNames(clients), NameOrder())
  {
    var d := Distinct(MapSeq(clients, (c: Client) => Or(c.name, Text(""))));
    var f := Filter(d, Truthy);
    var r := SortBy(f, NameOrder());
    assert v in r <==> v in f by {
      assert v in r <==> v in multiset(r);
    }
    MapSeqMembers(clients, (c: Client) => Or(c.name, Text("")), v);
    if Truthy(v) && exists c :: c in clients && c.name == v {
      var c :| c in clients && c.name == v;
      assert Or(c.name, Text("")) == v;
      var k :| 0 <= k < |d| && d[k] == v;
    }
    var idx := FilterEmbedding(d, Truthy);
    SubsequenceKeepsNoDuplicates(f, d);
    PermutationKeepsNoDuplicates(r, f);
    NameOrderIsPreorder();
    SortByIsSorted(f, NameOrder());
  }

  /** `filteredNames`: all options for an empty query, else those whose
      lower-cased text contains the lower-cased query. */
  function FilteredNames(names: seq<Value>, query: string): (r: seq<Value>)
    ensures query == "" ==> r == names
  {
    if query == "" then names else Filter(names, (n: Value) => Contains(Lower(ToText(n)), Lower(query)))
  }

  /** A non-empty query keeps exactly the matching options, in their order,
      so the result is still sorted and free of duplicates. */
  lemma FilteredNamesSpec(clients: seq<Client>, query: string, v: Value)
    ensures var r := FilteredNames(UniqueNames(clients), query);
            && (v in r <==> v in UniqueNames(clients) && (query == "" || Contains(Lower(ToText(v)), Lower(query))))
            && IsSubsequence(r, UniqueNames(clients))
            && NoDuplicates(r)
            && SortedBy(r, NameOrder())
  {
    var names := UniqueNames(clients);
    var r := FilteredNames(names, query);
    UniqueNamesSpec(clients, v);
    if query == "" {
      SubsequenceRefl(names);
    } else {
      FilterIsSubsequence(names, (n: Value) => Contains(Lower(ToText(n)), Lower(query)));
      if v in names && Contains(Lower(ToText(v)), Lower(query)) {
        var k :| 0 <= k < |names| && names[k] == v;
      }
    }
    SubsequenceKeepsNoDuplicates(r, names);
    SubsequenceKeepsOrder(r, names, NameOrder());
  }

  // ----- the selection -----

  /** The three chosen values of the upload form. */
  datatype Selection = Selection(name: string, project: string, blockLot: string)

  /** Picking a name clears the project and block-lot. */
  function ChooseName(sel: Selection, name: string): Selection {
    Selection(name, "", "")
  }

  /** Picking a project clears the block-lot. */
  function ChooseProject(sel: Selection, project: string): Selection {
    sel.(project := project, blockLot := "")
  }

  function ChooseBlockLot(sel: Selection, blockLot: string): Selection {
    sel.(blockLot := blockLot)
  }

  /** After a name is picked no block-lot is chosen or offered until a
      project is picked, and the projects offered are that name's. */
  lemma ChooseNameResets(clients: seq<Client>, sel: Selection, name: string)
    ensures var s := ChooseName(sel, name);
            && s.name == name && s.project == "" && s.blockLot == ""
            && AvailableBlockLots(clients, s.name, s.project) == []
            && AvailableProjects(clients, s.name) == AvailableProjects(clients, name)
  {
  }

  /** After a project is picked the name stays, no block-lot is chosen, and
      the block-lots offered are those of the name and that project. */
  lemma ChooseProjectResets(clients: seq<Client>, sel: Selection, project: string, b: string)
    ensures var s := ChooseProject(sel, project);
            && s.name == sel.name && s.project == project && s.blockLot == ""
            && (b in AvailableBlockLots(clients, s.name, s.project)
                <==> sel.name != "" && project != ""
                     && exists c :: c in clients && ListedUnder(c, sel.name, project) && c.blockLot == b)
  {
    AvailableBlockLotsIff(clients, sel.name, project, b);
  }
}
