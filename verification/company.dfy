/**
 * The company directory: a map from department name to the names of the
 * people in it, each list kept sorted after every insertion.
 *
 * Besides the map the model keeps a ghost record of every `add` in order.
 * The invariant ties the map to that record: the departments are exactly
 * those something was added to, and each department's list is the sorted
 * arrangement of the names added to it.
 */
module Directory {
  import opened Ordering
  import Command

  datatype Option<T> = None | Some(value: T)

  /** The names added to any department of `departments`, with repetitions. */
  ghost function NamesIn(history: seq<Command.Add>, departments: set<string>): multiset<string>
  {
    if history == [] then multiset{}
    else
      var last := history[|history| - 1];
      NamesIn(history[..|history| - 1], departments)
        + (if last.department in departments then multiset{last.name} else multiset{})
  }

  /** The departments something was added to. */
  ghost function DepartmentsOf(history: seq<Command.Add>): set<string> {
    set k | 0 <= k < |history| :: history[k].department
  }

  /** Every name ever added, with repetitions. */
  ghost function Everyone(history: seq<Command.Add>): multiset<string> {
    multiset(seq(|history|, k requires 0 <= k < |history| => history[k].name))
  }

  lemma DepartmentsOfAppend(history: seq<Command.Add>, add: Command.Add)
    ensures DepartmentsOf(history + [add]) == DepartmentsOf(history) + {add.department}
  {
    var longer := history + [add];
    assert forall k :: 0 <= k < |history| ==> longer[k] == history[k];
    assert longer[|history|] == add;
  }

  /** One more `add` counts for a department exactly when it names that department. */
  lemma NamesInAppend(history: seq<Command.Add>, add: Command.Add, department: string)
    ensures NamesIn(history + [add], {department})
         == NamesIn(history, {department})
            + (if add.department == department then multiset{add.name} else multiset{})
  {
    assert (history + [add])[..|history|] == history;
  }

  /** No department, no names. */
  lemma {:induction false} NamesInNone(history: seq<Command.Add>)
    ensures NamesIn(history, {}) == multiset{}
    decreases |history|
  {
    if history != [] {
      NamesInNone(history[..|history| - 1]);
    }
  }

  /** A department has names exactly when something was added to it. */
  lemma {:induction false} NamesInEmpty(history: seq<Command.Add>, department: string)
    ensures NamesIn(history, {department}) == multiset{} <==> department !in DepartmentsOf(history)
    decreases |history|
  {
    if history != [] {
      var init := history[..|history| - 1];
      NamesInEmpty(init, department);
      assert DepartmentsOf(history) == DepartmentsOf(init) + {history[|history| - 1].department} by {
        assert forall k :: 0 <= k < |init| ==> init[k] == history[k];
      }
    }
  }

  /** Names added to departments of disjoint sets add up. */
  lemma {:induction false} NamesInSplit(history: seq<Command.Add>, visited: set<string>, department: string)
    requires department !in visited
    ensures NamesIn(history, visited + {department}) == NamesIn(history, visited) + NamesIn(history, {department})
    decreases |history|
  {
    if history != [] {
      NamesInSplit(history[..|history| - 1], visited, department);
    }
  }

  /** Counting over a set that holds every department counts every name. */
  lemma {:induction false} NamesInAll(history: seq<Command.Add>, departments: set<string>)
    requires DepartmentsOf(history) <= departments
    ensures NamesIn(history, departments) == Everyone(history)
    decreases |history|
  {
    if history != [] {
      var init := history[..|history| - 1];
      var last := history[|history| - 1];
      assert DepartmentsOf(init) <= DepartmentsOf(history) by {
        assert forall k :: 0 <= k < |init| ==> init[k] == history[k];
      }
      assert last.department in DepartmentsOf(history);
      NamesInAll(init, departments);
      var names := seq(|history|, k requires 0 <= k < |history| => history[k].name);
      assert names == seq(|init|, k requires 0 <= k < |init| => init[k].name) + [last.name];
    }
  }

  /** Nobody is in the company exactly when nothing was ever added. */
  lemma EveryoneEmpty(history: seq<Command.Add>)
    ensures Everyone(history) == multiset{} <==> history == []
  {
  }

  /** Each `add` puts exactly one more occurrence of its name into the company. */
  lemma EveryoneAfterAdd(history: seq<Command.Add>, add: Command.Add)
    ensures Everyone(history + [add]) == Everyone(history) + multiset{add.name}
  {
    var longer := history + [add];
    assert seq(|longer|, k requires 0 <= k < |longer| => longer[k].name)
        == seq(|history|, k requires 0 <= k < |history| => history[k].name) + [add.name];
  }

  class Company {
    var departments: map<string, seq<string>>
    ghost var History: seq<Command.Add>

    ghost predicate Valid()
      reads this
    {
      && departments.Keys == DepartmentsOf(History)
      && forall department :: department in departments ==>
           && Sorted(departments[department])
           && multiset(departments[department]) == NamesIn(History, {department})
    }

    /** An empty directory. */
    constructor ()
      ensures Valid()
      ensures departments == map[] && History == []
    {
      departments := map[];
      History := [];
    }

    /**
     * The list `add` starts from: the stored one, or a new empty list for an
     * unseen department. Either way it is the sorted names added there so far.
     */
    function Stored(department: string): (list: seq<string>)
      reads this
      requires Valid()
      ensures Sorted(list)
      ensures multiset(list) == NamesIn(History, {department})
      ensures list == [] <==> department !in departments
    {
      NamesInEmpty(History, department);
      if department in departments then departments[department] else []
    }

    /**
     * Files `name` under `department`, creating the department if it is new.
     * The department's list becomes the old list with `name` added, sorted;
     * no other department changes.
     */
    method Add(department: string, name: string)
      requires Valid()
      modifies this
      ensures Valid()
      ensures History == old(History) + [Command.Add(name, department)]
      ensures departments.Keys == old(departments).Keys + {department}
      ensures forall other :: other in old(departments) && other != department ==>
                departments[other] == old(departments)[other]
      ensures Sorted(departments[department])
      ensures multiset(departments[department]) == multiset(old(Stored(department))) + multiset{name}
    {
      var list := Stored(department);
      list := list + [name];
      list := Sort(list);
      departments := departments[department := list];
      ghost var added := Command.Add(name, department);
      DepartmentsOfAppend(History, added);
      History := History + [added];
      forall other | other in departments
        ensures Sorted(departments[other])
        ensures multiset(departments[other]) == NamesIn(History, {other})
      {
        NamesInAppend(old(History), added, other);
      }
    }

    /**
     * The stored list of a department: absent exactly when nobody was ever
     * added to it, otherwise the sorted names added to it.
     */
    function RetrieveDepartment(department: string): (r: Option<seq<string>>)
      reads this
      requires Valid()
      ensures r.None? <==> department !in DepartmentsOf(History)
      ensures r.Some? ==> r.value == departments[department]
      ensures r.Some? ==> && Sorted(r.value)
                          && multiset(r.value) == NamesIn(History, {department})
                          && r.value != []
    {
      if department in departments then
        NamesInEmpty(History, department);
        Some(departments[department])
      else None
    }

    /**
     * Everyone in the company, sorted: the union of all department lists,
     * which is every name ever added. Empty exactly when nothing was added.
     */
    method RetrieveCompany() returns (company: seq<string>)
      requires Valid()
      ensures Sorted(company)
      ensures multiset(company) == Everyone(History)
      ensures company == [] <==> History == []
    {
      company := [];
      var remaining := departments.Keys;
      NamesInNone(History);
      assert departments.Keys - remaining == {};
      while remaining != {}
        invariant remaining <= departments.Keys
        invariant multiset(company) == NamesIn(History, departments.Keys - remaining)
        decreases remaining
      {
        var department :| department in remaining;
        var visited := departments.Keys - remaining;
        var found := RetrieveDepartment(department);
        if found.Some? {
          var people := found.value;
          var i := 0;
          while i < |people|
            invariant 0 <= i <= |people|
            invariant multiset(company) == NamesIn(History, visited) + multiset(people[..i])
          {
            company := company + [people[i]];
            assert people[..i + 1] == people[..i] + [people[i]];
            i := i + 1;
          }
          assert people[..|people|] == people;
        }
        NamesInSplit(History, visited, department);
        assert visited + {department} == departments.Keys - (remaining - {department});
        remaining := remaining - {department};
      }
      assert departments.Keys - remaining == departments.Keys;
      NamesInAll(History, departments.Keys);
      company := Sort(company);
      EveryoneEmpty(History);
      assert company == [] <==> multiset(company) == multiset{};
    }
  }

  /** The names of the company example, and their sorted order. */
  lemma ExampleEveryone(history: seq<Command.Add>)
    requires history == [Command.Add("Zed", "Eng"), Command.Add("Ann", "Ops")]
    ensures Everyone(history) == multiset(["Ann", "Zed"])
    ensures Sorted(["Ann", "Zed"])
  {
    assert LessEq("Ann", "Zed");
    var names := seq(|history|, k requires 0 <= k < |history| => history[k].name);
    assert names == ["Zed", "Ann"];
  }

  /** Names inserted in either order come out sorted; an unseen department is absent. */
  method ExampleDepartment() returns (engineering: Option<seq<string>>, sales: Option<seq<string>>)
    ensures engineering == Some(["Ann", "Zed"])
    ensures sales == None
  {
    var company := new Company();
    company.Add("Eng", "Zed");
    SortedUnique(company.departments["Eng"], ["Zed"]);
    company.Add("Eng", "Ann");
    engineering := company.RetrieveDepartment("Eng");
    sales := company.RetrieveDepartment("Sales");
    assert LessEq("Ann", "Zed");
    SortedUnique(engineering.value, ["Ann", "Zed"]);
  }

  /** The company listing merges the departments into one sorted list. */
  method ExampleCompany() returns (everyone: seq<string>)
    ensures everyone == ["Ann", "Zed"]
  {
    var company := new Company();
    company.Add("Eng", "Zed");
    company.Add("Ops", "Ann");
    ghost var history := company.History;
    everyone := company.RetrieveCompany();
    ExampleEveryone(history);
    SortedUnique(everyone, ["Ann", "Zed"]);
  }
}
