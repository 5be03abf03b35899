/** The admin sidebar: the classrooms in creation order, each with its
    overview and activities links. */
module SidebarData {
  import opened Wrappers
  import opened Strings
  import opened Seqs
  import opened ClassroomTypes

  /** A link under a classroom entry. */
  datatype NavLink = NavLink(title: string, url: string)

  /** A sidebar entry; `I` is the icon type. */
  datatype NavEntry<I> = NavEntry(title: string, ref: string, url: string, icon: Option<I>, items: seq<NavLink>)

  /** The sidebar's data; `U` is the signed-in user's record. */
  datatype Sidebar<U, I> = Sidebar(user: U, userRole: string, teamName: string, navMain: seq<NavEntry<I>>,
                                   classRooms: seq<NavEntry<I>>, projects: seq<NavEntry<I>>)

  /** The comparator of the sort: ascending creation date. `localeCompare`
      is modelled by code-point order. */
  function ByCreatedAt(): (Classroom, Classroom) -> bool
  {
    (a: Classroom, b: Classroom) => StrLe(a.createdAt, b.createdAt)
  }

  lemma ByCreatedAtTotal()
    ensures Total(ByCreatedAt())
  {
    forall a: Classroom, b: Classroom ensures ByCreatedAt()(a, b) || ByCreatedAt()(b, a) {
      StrLeTotal(a.createdAt, b.createdAt);
    }
  }

  /** The classroom page of the admin dashboard. */
  function ClassroomUrl(id: string): string
  {
    "/dashboard/admin/classrooms/" + id
  }

  /** Distinct classrooms have distinct pages. */
  lemma ClassroomUrlInjective(a: string, b: string)
    requires ClassroomUrl(a) == ClassroomUrl(b)
    ensures a == b
  {
    var p := "/dashboard/admin/classrooms/";
    assert a == ClassroomUrl(a)[|p|..];
    assert b == ClassroomUrl(b)[|p|..];
  }

  /** The entry of one classroom. `icons[period]` may be missing. */
  function Entry<I>(c: Classroom, icons: map<string, I>): (r: NavEntry<I>)
    ensures r.title == c.name && r.ref == c.id && r.url == ClassroomUrl(c.id)
    ensures r.icon.Some? <==> PeriodName(c.period) in icons
    ensures r.icon.Some? ==> r.icon.value == icons[PeriodName(c.period)]
    ensures |r.items| == 2
    ensures r.items[0] == NavLink("Visão Geral", r.url + "/attendance")
    ensures r.items[1] == NavLink("Atividades", r.url + "/projects")
  {
    var key := PeriodName(c.period);
    NavEntry(c.name, c.id, ClassroomUrl(c.id), if key in icons then Some(icons[key]) else None,
             [NavLink("Visão Geral", ClassroomUrl(c.id) + "/attendance"),
              NavLink("Atividades", ClassroomUrl(c.id) + "/projects")])
  }

  /** Every link of an entry lies under the entry's page. */
  lemma EntryLinksUnderPage<I>(c: Classroom, icons: map<string, I>)
    ensures forall k :: 0 <= k < |Entry(c, icons).items| ==>
      StartsWith(Entry(c, icons).items[k].url, Entry(c, icons).url + "/")
  {
    var e := Entry(c, icons);
    assert (e.url + "/attendance")[..|e.url + "/"|] == e.url + "/";
    assert (e.url + "/projects")[..|e.url + "/"|] == e.url + "/";
  }

  /** Sorts `classrooms` in place, by creation date, keeping classrooms with
      equal dates in their order (the sort of the engine is stable). */
  method SortByCreatedAt(classrooms: array<Classroom>)
    modifies classrooms
    ensures classrooms[..] == SortBy(old(classrooms[..]), ByCreatedAt())
    ensures Sorted(classrooms[..], ByCreatedAt())
    ensures multiset(classrooms[..]) == multiset(old(classrooms[..]))
  {
    ghost var before := classrooms[..];
    var sorted := SortBy(classrooms[..], ByCreatedAt());
    var i := 0;
    while i < classrooms.Length
      invariant 0 <= i <= classrooms.Length
      invariant |sorted| == classrooms.Length
      invariant classrooms[..i] == sorted[..i]
    {
      classrooms[i] := sorted[i];
      i := i + 1;
    }
    assert classrooms[..] == sorted;
    ByCreatedAtTotal();
    SortByCorrect(before, ByCreatedAt());
  }

  /** `createClassroomNavigation`: sorts the classrooms (the caller's array
      is sorted as well) and makes one entry per classroom. */
  method CreateClassroomNavigation<I>(classrooms: array<Classroom>, icons: map<string, I>)
    returns (nav: seq<NavEntry<I>>)
    modifies classrooms
    ensures Sorted(classrooms[..], ByCreatedAt())
    ensures multiset(classrooms[..]) == multiset(old(classrooms[..]))
    ensures |nav| == classrooms.Length
    ensures forall i :: 0 <= i < |nav| ==> nav[i] == Entry(classrooms[i], icons)
  {
    SortByCreatedAt(classrooms);
    nav := seq(classrooms.Length, i reads classrooms requires 0 <= i < classrooms.Length => Entry(classrooms[i], icons));
  }

  /** `createSidebarData`: the fixed team and empty menus around the
      classroom navigation. */
  method CreateSidebarData<U, I>(user: U, userRole: string, classrooms: array<Classroom>, icons: map<string, I>)
    returns (d: Sidebar<U, I>)
    modifies classrooms
    ensures d.user == user && d.userRole == userRole && d.teamName == "Administrador"
    ensures d.navMain == [] && d.projects == []
    ensures Sorted(classrooms[..], ByCreatedAt())
    ensures multiset(classrooms[..]) == multiset(old(classrooms[..]))
    ensures |d.classRooms| == classrooms.Length
    ensures forall i :: 0 <= i < |d.classRooms| ==> d.classRooms[i] == Entry(classrooms[i], icons)
  {
    var nav := CreateClassroomNavigation(classrooms, icons);
    d := Sidebar(user, userRole, "Administrador", [], nav, []);
  }

  /** The entries come in creation order and their pages are those of
      distinct classrooms exactly when the ids are distinct. */
  lemma {:induction false} NavigationOrder<I>(sorted: seq<Classroom>, icons: map<string, I>, i: int, j: int)
    requires Sorted(sorted, ByCreatedAt())
    requires 0 <= i <= j < |sorted|
    ensures StrLe(sorted[i].createdAt, sorted[j].createdAt)
    ensures Entry(sorted[i], icons).url == Entry(sorted[j], icons).url <==> sorted[i].id == sorted[j].id
    decreases j - i
  {
    if i < j {
      NavigationOrder(sorted, icons, i, j - 1);
      StrLeTransitive(sorted[i].createdAt, sorted[j - 1].createdAt, sorted[j].createdAt);
    } else {
      StrLeTotal(sorted[i].createdAt, sorted[i].createdAt);
    }
    if Entry(sorted[i], icons).url == Entry(sorted[j], icons).url {
      ClassroomUrlInjective(sorted[i].id, sorted[j].id);
    }
  }
}
