/** The app bar: the path is cut into segments, the second segment is the
    role, the rest are the breadcrumb parts; each part becomes a crumb with
    a label from the path labels, and the title is taken from the last
    crumb. */
module AppBar {
  import opened Wrappers
  import opened Strings

  /** One breadcrumb entry (`{ label, href, title }`). */
  datatype Crumb = Crumb(caption: string, href: string, title: string)

  /** `path.split("/").filter(Boolean)`. */
  function Segments(path: string): (r: seq<string>)
    ensures forall i :: 0 <= i < |r| ==> r[i] != "" && '/' !in r[i]
  {
    var r := NonEmpty(Split(path, '/'));
    assert forall i :: 0 <= i < |r| ==> r[i] in Split(path, '/');
    r
  }

  /** `segments[1] || ""`. */
  function Role(segments: seq<string>): string
  {
    if |segments| > 1 then segments[1] else ""
  }

  /** `segments.slice(2)`. */
  function Parts(segments: seq<string>): seq<string>
  {
    if |segments| > 2 then segments[2..] else []
  }

  /** A path segment as the router writes it: non-empty and without a
      slash. */
  predicate Segment(s: string)
  {
    s != "" && '/' !in s
  }

  lemma {:induction false} NonEmptyAll(ps: seq<string>)
    requires forall i :: 0 <= i < |ps| ==> ps[i] != ""
    ensures NonEmpty(ps) == ps
  {
    if ps != [] {
      NonEmptyAll(ps[1..]);
      assert [ps[0]] + ps[1..] == ps;
    }
  }

  /** A path built from segments separates into those segments again. */
  lemma SegmentsOfPath(ps: seq<string>)
    requires |ps| >= 1
    requires forall i :: 0 <= i < |ps| ==> Segment(ps[i])
    ensures Segments("/" + Join(ps, "/")) == ps
  {
    var qs := LeadingSlash(ps);
    SplitJoin(qs, '/');
    NonEmptyAll(ps);
  }

  /** A leading slash is a join with an empty first segment. */
  lemma LeadingSlash(ps: seq<string>) returns (qs: seq<string>)
    requires |ps| >= 1
    requires forall i :: 0 <= i < |ps| ==> Segment(ps[i])
    ensures |qs| >= 1 && forall i :: 0 <= i < |qs| ==> '/' !in qs[i]
    ensures Join(qs, ['/']) == "/" + Join(ps, "/")
    ensures NonEmpty(qs) == NonEmpty(ps)
  {
    qs := [""] + ps;
    assert qs[0] == "" && qs[1..] == ps;
    assert "/" == ['/'];
    forall i | 0 <= i < |qs| ensures '/' !in qs[i] {
      if i > 0 {
        assert qs[i] == ps[i - 1];
      }
    }
  }

  lemma SegmentsOfPrefixed(head: seq<string>, parts: seq<string>)
    requires |head| >= 1
    requires forall i :: 0 <= i < |head| ==> Segment(head[i])
    requires forall i :: 0 <= i < |parts| ==> Segment(parts[i])
    ensures Segments("/" + Join(head + parts, "/")) == head + parts
  {
    var ps := head + parts;
    assert forall i :: 0 <= i < |ps| ==> ps[i] == if i < |head| then head[i] else parts[i - |head|];
    SegmentsOfPath(ps);
  }

  /** Under a root segment, the second segment is the role and the rest
      are the parts. */
  lemma RoleAndPartsUnder(root: string, role: string, parts: seq<string>)
    requires Segment(root) && Segment(role)
    requires forall i :: 0 <= i < |parts| ==> Segment(parts[i])
    ensures var segs := Segments("/" + Join([root, role] + parts, "/"));
      Role(segs) == role && Parts(segs) == parts
  {
    var head := [root, role];
    var ps := head + parts;
    assert Segment(head[0]) && Segment(head[1]);
    SegmentsOfPrefixed(head, parts);
    assert ps[1] == role;
    assert ps[2..] == parts;
  }

  /** On `/dashboard/<role>/<p1>/.../<pn>` the role and the parts are read
      back from the path. */
  lemma RoleAndPartsOfPath(role: string, parts: seq<string>)
    requires Segment(role)
    requires forall i :: 0 <= i < |parts| ==> Segment(parts[i])
    ensures var segs := Segments("/" + Join(["dashboard", role] + parts, "/"));
      Role(segs) == role && Parts(segs) == parts
  {
    DashboardIsSegment();
    RoleAndPartsUnder("dashboard", role, parts);
  }

  lemma DashboardIsSegment()
    ensures Segment("dashboard")
  {
  }

  /** The key looked up for part `index`: `all_<previous part>` for a part
      "all" (`all_undefined` when there is no previous part), the part
      itself otherwise. */
  function LabelKey(parts: seq<string>, index: nat): string
    requires index < |parts|
  {
    if parts[index] == "all" then
      "all_" + (if index > 0 then parts[index - 1] else "undefined")
    else parts[index]
  }

  /** `pathLabels[key] || part`. */
  function PartLabel(pathLabels: map<string, string>, parts: seq<string>, index: nat): (r: string)
    requires index < |parts|
    ensures var key := LabelKey(parts, index);
      (key in pathLabels && pathLabels[key] != "" ==> r == pathLabels[key])
      && (key !in pathLabels || pathLabels[key] == "" ==> r == parts[index])
    ensures parts[index] != "" ==> r != ""
  {
    var key := LabelKey(parts, index);
    if key in pathLabels && pathLabels[key] != "" then pathLabels[key] else parts[index]
  }

  /** `Olá <first word of the full name> 👋🏿`, with `undefined` when the
      user or the profile is missing. */
  function Greeting(fullName: Option<string>): (r: string)
    ensures r != ""
  {
    var first := match fullName
      case None => "undefined"
      case Some(n) => Split(n, ' ')[0];
    "Olá " + first + " \U{1F44B}\U{1F3FF}"
  }

  /** The link of crumb `i + 1`: `/dashboard/<role>/` and the first `i + 1`
      parts joined by slashes. */
  function PartHref(role: string, parts: seq<string>, i: nat): string
    requires i < |parts|
  {
    "/dashboard/" + role + "/" + Join(parts[..i + 1], "/")
  }

  /** The crumb of part `i`. */
  function PartCrumb(role: string, parts: seq<string>, pathLabels: map<string, string>, i: nat): Crumb
    requires i < |parts|
  {
    Crumb(PartLabel(pathLabels, parts, i), PartHref(role, parts, i), "")
  }

  /** The first crumb, "Inicio", pointing at the role's dashboard. */
  function Home(role: string, fullName: Option<string>): Crumb
  {
    Crumb("Inicio", "/dashboard/" + role, Greeting(fullName))
  }

  /** `breadcrumbItems`: the reduce that pushes one crumb per part onto an
      accumulator holding the home crumb. */
  method BreadcrumbItems(role: string, parts: seq<string>, pathLabels: map<string, string>,
                         fullName: Option<string>) returns (items: seq<Crumb>)
    ensures |items| == 1 + |parts|
    ensures items[0] == Home(role, fullName)
    ensures forall i :: 0 <= i < |parts| ==> items[i + 1] == PartCrumb(role, parts, pathLabels, i)
  {
    items := [Home(role, fullName)];
    var index := 0;
    while index < |parts|
      invariant 0 <= index <= |parts|
      invariant |items| == 1 + index
      invariant items[0] == Home(role, fullName)
      invariant forall i :: 0 <= i < index ==> items[i + 1] == PartCrumb(role, parts, pathLabels, i)
    {
      var href := "/dashboard/" + role + "/" + Join(parts[..index + 1], "/");
      var caption := PartLabel(pathLabels, parts, index);
      items := items + [Crumb(caption, href, "")];
      index := index + 1;
    }
  }

  /** Each crumb's link extends the previous one by a slash and its part. */
  lemma HrefExtends(role: string, parts: seq<string>, i: nat)
    requires i < |parts|
    ensures i == 0 ==> PartHref(role, parts, i) == Home(role, None).href + "/" + parts[0]
    ensures i > 0 ==> PartHref(role, parts, i) == PartHref(role, parts, i - 1) + "/" + parts[i]
  {
    if i > 0 {
      assert parts[..i + 1] == parts[..i] + [parts[i]];
      JoinAppend(parts[..i], parts[i], "/");
    } else {
      assert parts[..1] == [parts[0]];
    }
  }

  /** Following crumb `i + 1` leads to a path whose role is the same and
      whose parts are the first `i + 1` parts. */
  lemma HrefLeadsToPrefix(role: string, parts: seq<string>, i: nat)
    requires i < |parts|
    requires Segment(role)
    requires forall k :: 0 <= k < |parts| ==> Segment(parts[k])
    ensures var segs := Segments(PartHref(role, parts, i));
      Role(segs) == role && Parts(segs) == parts[..i + 1]
  {
    var p := parts[..i + 1];
    JoinTwoHeads("dashboard", role, p, "/");
    DashboardPrefix(role, Join(p, "/"));
    RoleAndPartsOfPath(role, p);
  }

  lemma JoinTwoHeads(a: string, b: string, p: seq<string>, sep: string)
    requires |p| >= 1
    ensures Join([a, b] + p, sep) == a + sep + (b + sep + Join(p, sep))
  {
    var ps := [a, b] + p;
    assert ps[1..] == [b] + p;
    assert ([b] + p)[1..] == p;
  }

  lemma DashboardPrefix(role: string, rest: string)
    ensures "/" + ("dashboard" + "/" + (role + "/" + rest)) == "/dashboard/" + role + "/" + rest
  {
  }

  /** The page title: the last crumb's title when non-empty, else its label;
      nothing without crumbs. */
  function Title(items: seq<Crumb>): (r: Option<string>)
    ensures r.None? <==> items == []
    ensures items != [] && items[|items| - 1].title != "" ==> r == Some(items[|items| - 1].title)
    ensures items != [] && items[|items| - 1].title == "" ==> r == Some(items[|items| - 1].caption)
  {
    if items == [] then None
    else
      var last := items[|items| - 1];
      Some(if last.title != "" then last.title else last.caption)
  }

  /** For the crumbs of a path the title is the greeting exactly when there
      are no parts, and otherwise the label of the last part. */
  lemma TitleOfBreadcrumb(role: string, parts: seq<string>, pathLabels: map<string, string>,
                          fullName: Option<string>, items: seq<Crumb>)
    requires |items| == 1 + |parts|
    requires items[0] == Home(role, fullName)
    requires forall i :: 0 <= i < |parts| ==> items[i + 1] == PartCrumb(role, parts, pathLabels, i)
    ensures parts == [] ==> Title(items) == Some(Greeting(fullName))
    ensures parts != [] ==> Title(items) == Some(PartLabel(pathLabels, parts, |parts| - 1))
    ensures Title(items) == Some(Greeting(fullName)) <==> parts == [] || PartLabel(pathLabels, parts, |parts| - 1) == Greeting(fullName)
  {
    if parts != [] {
      assert items[|items| - 1] == PartCrumb(role, parts, pathLabels, |parts| - 1);
    }
  }
}
