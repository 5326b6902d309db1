/** The optional modules of internal/scaffold/scaffold.go: their names, the request parser, and the
    registration lines that they add to app/routes.go. */
module Catalog {
  import opened Wrappers
  import opened Text

  datatype Module =
    | Auth | SSE | WebSocket | OpenAPI | Jobs | Uploads | Mail | Audit | Webhooks | Entitlements | Billing

  function Name(m: Module): string {
    match m
    case Auth => "auth"
    case SSE => "sse"
    case WebSocket => "websocket"
    case OpenAPI => "openapi"
    case Jobs => "jobs"
    case Uploads => "uploads"
    case Mail => "mail"
    case Audit => "audit"
    case Webhooks => "webhooks"
    case Entitlements => "entitlements"
    case Billing => "billing"
  }

  /** moduleSpecs as a lookup. */
  function Lookup(name: string): Option<Module> {
    if name == "auth" then Some(Auth)
    else if name == "sse" then Some(SSE)
    else if name == "websocket" then Some(WebSocket)
    else if name == "openapi" then Some(OpenAPI)
    else if name == "jobs" then Some(Jobs)
    else if name == "uploads" then Some(Uploads)
    else if name == "mail" then Some(Mail)
    else if name == "audit" then Some(Audit)
    else if name == "webhooks" then Some(Webhooks)
    else if name == "entitlements" then Some(Entitlements)
    else if name == "billing" then Some(Billing)
    else None
  }

  /** How many files the module installs. */
  function FileCount(m: Module): nat {
    if m.OpenAPI? || m.Jobs? then 2 else 1
  }

  /** The part of the module's register function that is its own. */
  function Title(m: Module): string {
    match m
    case Auth => "Auth"
    case SSE => "SSE"
    case WebSocket => "WebSocket"
    case OpenAPI => "OpenAPI"
    case Jobs => ""
    case Uploads => "Uploads"
    case Mail => "Mail"
    case Audit => "Audit"
    case Webhooks => "Webhooks"
    case Entitlements => "Entitlements"
    case Billing => "Billing"
  }

  const REGISTER := "\tregister"
  const RUNTIME := "(runtime)\n"

  /** The module's registration line; the jobs module has none. */
  function Registration(m: Module): string {
    if m.Jobs? then "" else REGISTER + Title(m) + RUNTIME
  }

  const MARKER: string := "\t// wahoo:modules\n"

  lemma LookupOfName(m: Module)
    ensures Lookup(Name(m)) == Some(m)
  {
  }

  lemma NameShape(m: Module)
    ensures IsToken(Name(m)) && Free(Name(m), ',')
  {
  }

  // ---- requests ----

  /** The parts of a request: each value split at its commas. */
  function Parts(values: seq<string>): seq<string> {
    if values == [] then [] else Split(values[0], ',') + Parts(values[1..])
  }

  /** The parts, in order, into a list without duplicates; None at an unknown name. */
  function Collect(acc: seq<Module>, parts: seq<string>): Option<seq<Module>>
    decreases |parts|
  {
    if parts == [] then Some(acc)
    else
      var name := TrimSpace(parts[0]);
      if name == "" then Collect(acc, parts[1..])
      else
        match Lookup(name)
        case None => None
        case Some(m) => Collect(Include(acc, m), parts[1..])
  }

  function Include(acc: seq<Module>, m: Module): seq<Module> {
    if m in acc then acc else acc + [m]
  }

  function Parsed(values: seq<string>): Option<seq<Module>> {
    Collect([], Parts(values))
  }

  method ParseModules(values: seq<string>) returns (r: Option<seq<Module>>)
    ensures r == Parsed(values)
  {
    hide Lookup, TrimSpace;
    var modules: seq<Module> := [];
    for i := 0 to |values|
      invariant Collect([], Parts(values)) == Collect(modules, Parts(values[i..]))
    {
      var parts := Split(values[i], ',');
      assert values[i..][0] == values[i] && values[i..][1..] == values[i + 1..];
      ghost var rest := Parts(values[i + 1..]);
      assert parts[0..] + rest == parts + rest;
      for j := 0 to |parts|
        invariant Collect([], Parts(values)) == Collect(modules, parts[j..] + rest)
      {
        assert (parts[j..] + rest)[0] == parts[j] && (parts[j..] + rest)[1..] == parts[j + 1..] + rest;
        var name := TrimSpace(parts[j]);
        if name == "" {
          continue;
        }
        var m := Lookup(name);
        if m.None? {
          return None;
        }
        if m.value !in modules {
          modules := modules + [m.value];
        }
      }
      assert parts[|parts|..] + rest == rest;
    }
    return Some(modules);
  }

  predicate NoDuplicates(ms: seq<Module>) {
    forall i, j :: 0 <= i < j < |ms| ==> ms[i] != ms[j]
  }

  /** What of `requested` is not yet in `installed`, in order. */
  function Additions(installed: seq<Module>, requested: seq<Module>): seq<Module> {
    if requested == [] then []
    else (if requested[0] in installed then [] else [requested[0]]) + Additions(installed, requested[1..])
  }

  /** `ms` followed by what of `more` it lacks. */
  function Merged(ms: seq<Module>, more: seq<Module>): seq<Module> {
    ms + Additions(ms, more)
  }

  lemma {:induction false} CollectAppend(acc: seq<Module>, a: seq<string>, b: seq<string>)
    ensures Collect(acc, a + b) == if Collect(acc, a).None? then None else Collect(Collect(acc, a).value, b)
    decreases |a|
  {
    hide Lookup, TrimSpace;
    if a == [] {
      assert a + b == b;
    } else {
      assert (a + b)[1..] == a[1..] + b;
      var m := Lookup(TrimSpace(a[0]));
      CollectAppend(acc, a[1..], b);
      if m.Some? {
        CollectAppend(Include(acc, m.value), a[1..], b);
      }
    }
  }

  lemma {:induction false} PartsAppend(a: seq<string>, b: seq<string>)
    ensures Parts(a + b) == Parts(a) + Parts(b)
  {
    if a == [] {
      assert a + b == b;
    } else {
      assert (a + b)[1..] == a[1..] + b;
      PartsAppend(a[1..], b);
    }
  }

  lemma {:induction false} CollectKeepsOrder(acc: seq<Module>, parts: seq<string>)
    requires NoDuplicates(acc) && Collect(acc, parts).Some?
    ensures acc <= Collect(acc, parts).value && NoDuplicates(Collect(acc, parts).value)
    decreases |parts|
  {
    hide Lookup, TrimSpace;
    if parts != [] {
      var name := TrimSpace(parts[0]);
      if name == "" {
        CollectKeepsOrder(acc, parts[1..]);
      } else {
        CollectKeepsOrder(Include(acc, Lookup(name).value), parts[1..]);
      }
    }
  }

  lemma {:induction false} AdditionsAre(installed: seq<Module>, requested: seq<Module>)
    ensures forall m :: m in Additions(installed, requested) <==> m in requested && m !in installed
    ensures NoDuplicates(requested) ==> NoDuplicates(Additions(installed, requested))
  {
    if requested != [] {
      AdditionsAre(installed, requested[1..]);
      assert forall m :: m in requested <==> m == requested[0] || m in requested[1..];
    }
  }

  lemma {:induction false} AdditionsWithout(installed: seq<Module>, m: Module, requested: seq<Module>)
    requires m !in requested
    ensures Additions(installed + [m], requested) == Additions(installed, requested)
  {
    if requested != [] {
      AdditionsWithout(installed, m, requested[1..]);
    }
  }

  lemma AdditionsCons(installed: seq<Module>, m: Module, rest: seq<Module>)
    ensures Additions(installed, [m] + rest) == (if m in installed then [] else [m]) + Additions(installed, rest)
  {
    assert ([m] + rest)[1..] == rest;
  }

  /** Collecting on top of a list appends what is new, as if collected on top of a part of it. */
  lemma {:induction false} CollectFrom(acc: seq<Module>, small: seq<Module>, parts: seq<string>)
    requires NoDuplicates(small) && forall m :: m in small ==> m in acc
    ensures Collect(acc, parts).Some? <==> Collect(small, parts).Some?
    ensures Collect(acc, parts).Some? ==>
              && small <= Collect(small, parts).value
              && Collect(acc, parts).value == Merged(acc, Collect(small, parts).value[|small|..])
    decreases |parts|
  {
    hide Lookup, TrimSpace;
    if parts != [] {
      var name, rest := TrimSpace(parts[0]), parts[1..];
      if name == "" || Lookup(name).None? {
        CollectFrom(acc, small, rest);
      } else {
        var m := Lookup(name).value;
        var small' := Include(small, m);
        CollectFrom(Include(acc, m), small', rest);
        if Collect(small', rest).Some? {
          CollectKeepsOrder(small', rest);
          CollectOne(acc, small, m, Collect(small', rest).value);
        }
      }
    }
  }

  lemma CollectOne(acc: seq<Module>, small: seq<Module>, m: Module, all: seq<Module>)
    requires NoDuplicates(all) && Include(small, m) <= all && forall m :: m in small ==> m in acc
    ensures small <= all
    ensures Merged(Include(acc, m), all[|Include(small, m)|..]) == Merged(acc, all[|small|..])
  {
    if m !in small {
      var rest := all[|small| + 1..];
      assert all[|small|..] == [m] + rest;
      AdditionsCons(acc, m, rest);
      if m !in acc {
        assert m !in rest;
        AdditionsWithout(acc, m, rest);
      }
    }
  }

  /** Parsing two requests together is parsing each and appending what is new. */
  lemma ParsedTogether(a: seq<string>, b: seq<string>)
    ensures Parsed(a + b).Some? <==> Parsed(a).Some? && Parsed(b).Some?
    ensures Parsed(a + b).Some? ==> Parsed(a + b).value == Merged(Parsed(a).value, Parsed(b).value)
  {
    PartsAppend(a, b);
    CollectAppend([], Parts(a), Parts(b));
    if Parsed(a).Some? {
      CollectFrom(Parsed(a).value, [], Parts(b));
      if Parsed(b).Some? {
        assert Parsed(b).value[0..] == Parsed(b).value;
      }
    }
  }

  lemma ParsedHasNoDuplicates(values: seq<string>)
    requires Parsed(values).Some?
    ensures NoDuplicates(Parsed(values).value)
  {
    CollectKeepsOrder([], Parts(values));
  }

  // ---- what a request means ----

  predicate Says(part: string, m: Module) {
    TrimSpace(part) == Name(m)
  }

  /** Blank, or the name of a module. */
  ghost predicate Known(part: string) {
    TrimSpace(part) == "" || exists m :: Says(part, m)
  }

  ghost predicate AllKnown(parts: seq<string>) {
    forall k :: 0 <= k < |parts| ==> Known(parts[k])
  }

  /** The first part that names m; how many parts there are when none does. */
  function FirstNamed(parts: seq<string>, m: Module): (k: nat)
    ensures k <= |parts| && (k < |parts| ==> Says(parts[k], m)) && forall j :: 0 <= j < k ==> !Says(parts[j], m)
  {
    if parts == [] || Says(parts[0], m) then 0 else 1 + FirstNamed(parts[1..], m)
  }

  lemma LookupExactly(part: string)
    ensures Lookup(TrimSpace(part)).Some? <==> exists m :: Says(part, m)
    ensures forall m :: Says(part, m) <==> Lookup(TrimSpace(part)) == Some(m)
    ensures forall m :: Says(part, m) ==> TrimSpace(part) != ""
  {
    hide TrimSpace;
    var name := TrimSpace(part);
    forall m
      ensures name == Name(m) <==> Lookup(name) == Some(m)
    {
      LookupOfName(m);
    }
    if Lookup(name).Some? {
      assert Says(part, Lookup(name).value);
    }
    forall m | Says(part, m)
      ensures name != ""
    {
      NameShape(m);
    }
  }

  lemma {:induction false} CollectAccepts(acc: seq<Module>, parts: seq<string>)
    ensures Collect(acc, parts).Some? <==> AllKnown(parts)
    decreases |parts|
  {
    hide Lookup, TrimSpace, Says;
    if parts != [] {
      var name, rest := TrimSpace(parts[0]), parts[1..];
      LookupExactly(parts[0]);
      assert AllKnown(parts) <==> Known(parts[0]) && AllKnown(rest) by {
        assert forall k :: 0 <= k < |rest| ==> rest[k] == parts[k + 1];
        assert forall k :: 1 <= k < |parts| ==> parts[k] == rest[k - 1];
      }
      if name == "" {
        CollectAccepts(acc, rest);
      } else if Lookup(name).Some? {
        CollectAccepts(Include(acc, Lookup(name).value), rest);
      }
    }
  }

  lemma {:induction false} CollectMembers(acc: seq<Module>, parts: seq<string>, m: Module)
    requires Collect(acc, parts).Some?
    ensures m in Collect(acc, parts).value <==> m in acc || FirstNamed(parts, m) < |parts|
    decreases |parts|
  {
    hide Lookup, TrimSpace, Says;
    if parts != [] {
      var name, rest := TrimSpace(parts[0]), parts[1..];
      LookupExactly(parts[0]);
      CollectMembers(if name == "" then acc else Include(acc, Lookup(name).value), rest, m);
    }
  }

  /** New modules stand in the order of the first parts that name them. */
  lemma {:induction false} CollectOrder(acc: seq<Module>, parts: seq<string>, i: nat, j: nat)
    requires NoDuplicates(acc) && Collect(acc, parts).Some?
    requires |acc| <= i < j < |Collect(acc, parts).value|
    ensures var all := Collect(acc, parts).value; FirstNamed(parts, all[i]) < FirstNamed(parts, all[j]) < |parts|
    decreases |parts|
  {
    hide Lookup, TrimSpace, Says;
    var name, rest, all := TrimSpace(parts[0]), parts[1..], Collect(acc, parts).value;
    LookupExactly(parts[0]);
    CollectKeepsOrder(acc, parts);
    if name == "" {
      CollectOrder(acc, rest, i, j);
    } else {
      var m := Lookup(name).value;
      var next := Include(acc, m);
      CollectKeepsOrder(next, rest);
      if i >= |next| {
        CollectOrder(next, rest, i, j);
        assert all[i] != m && all[j] != m by {
          if m in acc {
            var k :| 0 <= k < |acc| && acc[k] == m;
            assert all[k] == m;
          } else {
            assert all[|acc|] == next[|acc|] == m;
          }
        }
      } else {
        assert all[i] == next[i] == m && all[j] != m;
        assert all[j] !in next by {
          assert forall k :: 0 <= k < |next| ==> all[k] == next[k];
        }
        CollectMembers(next, rest, all[j]);
      }
    }
  }

  /** A request is understood exactly when each of its parts is blank or names a module; it then yields
      the modules that it names, once each, in the order of the first parts that name them. */
  lemma ParsedExactly(values: seq<string>)
    ensures Parsed(values).Some? <==> AllKnown(Parts(values))
    ensures Parsed(values).Some? ==>
              var parts, ms := Parts(values), Parsed(values).value;
              && (forall m :: m in ms <==> FirstNamed(parts, m) < |parts|)
              && (forall i, j :: 0 <= i < j < |ms| ==> FirstNamed(parts, ms[i]) < FirstNamed(parts, ms[j]))
  {
    hide Parts, Collect, AllKnown, FirstNamed;
    var parts := Parts(values);
    CollectAccepts([], parts);
    if Parsed(values).Some? {
      var ms := Parsed(values).value;
      forall m
        ensures m in ms <==> FirstNamed(parts, m) < |parts|
      {
        CollectMembers([], parts, m);
      }
      forall i, j | 0 <= i < j < |ms|
        ensures FirstNamed(parts, ms[i]) < FirstNamed(parts, ms[j])
      {
        CollectOrder([], parts, i, j);
      }
    }
  }

  /** moduleStrings. */
  function Names(ms: seq<Module>): (names: seq<string>)
    ensures |names| == |ms|
  {
    if ms == [] then [] else [Name(ms[0])] + Names(ms[1..])
  }

  lemma PartsOfName(m: Module)
    ensures Split(Name(m), ',') == [Name(m)] && TrimSpace(Name(m)) == Name(m) && Name(m) != ""
  {
    var name := Name(m);
    NameShape(m);
    UntilOf(name, ',', "");
    assert name + "" == name && "" + name + "" == name;
    TrimSpaceOfPadded("", name, "");
  }

  lemma NamesOfNothing()
    ensures Parts(Names([])) == []
  {
  }

  lemma PartsOfNames(ms: seq<Module>)
    requires ms != []
    ensures Parts(Names(ms)) == [Name(ms[0])] + Parts(Names(ms[1..]))
  {
    hide Name, Split;
    PartsOfName(ms[0]);
    assert Names(ms)[1..] == Names(ms[1..]);
  }

  lemma CollectCons(acc: seq<Module>, name: string, rest: seq<string>)
    requires TrimSpace(name) != "" && Lookup(TrimSpace(name)).Some?
    ensures Collect(acc, [name] + rest) == Collect(Include(acc, Lookup(TrimSpace(name)).value), rest)
  {
    hide Lookup, TrimSpace, Include;
    assert ([name] + rest)[1..] == rest;
  }

  lemma {:induction false} CollectNames(acc: seq<Module>, ms: seq<Module>)
    requires NoDuplicates(acc + ms)
    ensures Collect(acc, Parts(Names(ms))) == Some(acc + ms)
    decreases |ms|
  {
    hide Name, Lookup, TrimSpace, Parts, Names;
    if ms == [] {
      NamesOfNothing();
      assert acc + ms == acc;
    } else {
      var m, rest := ms[0], ms[1..];
      PartsOfName(m);
      LookupOfName(m);
      assert (acc + ms)[|acc|] == m;
      assert m !in acc by {
        assert forall i :: 0 <= i < |acc| ==> (acc + ms)[i] == acc[i];
      }
      PartsOfNames(ms);
      CollectCons(acc, Name(m), Parts(Names(rest)));
      assert (acc + [m]) + rest == acc + ms;
      CollectNames(acc + [m], rest);
    }
  }

  /** A list of distinct modules survives being written as names and parsed again. */
  lemma NamesParseBack(ms: seq<Module>)
    requires NoDuplicates(ms)
    ensures Parsed(Names(ms)) == Some(ms)
  {
    assert [] + ms == ms;
    CollectNames([], ms);
  }

  // ---- lines of app/routes.go ----

  /** A tab, text without tabs and line feeds, and a line feed. */
  predicate IsTabLine(w: string) {
    && |w| >= 2
    && w[0] == '\t' && Free(w[1..], '\t')
    && w[|w| - 1] == '\n' && Free(w[..|w| - 1], '\n')
  }

  lemma MarkerShape()
    ensures IsTabLine(MARKER)
  {
    var middle := "// wahoo:modules";
    assert Free(middle, '\t') && Free(middle, '\n');
    TabLineOf("\t", middle, "\n");
    assert MARKER == "\t" + middle + "\n";
  }

  /** Inside a tab line there is no tab and no line feed. */
  lemma TabLineInside(w: string)
    requires IsTabLine(w)
    ensures forall i :: 0 < i < |w| ==> w[i] != '\t'
    ensures forall i :: 0 <= i < |w| - 1 ==> w[i] != '\n'
  {
    assert forall i :: 0 < i < |w| ==> w[i] == w[1..][i - 1];
    assert forall i :: 0 <= i < |w| - 1 ==> w[i] == w[..|w| - 1][i];
  }

  lemma TitleShape(m: Module)
    ensures Free(Title(m), '\t') && Free(Title(m), '\n')
  {
  }

  lemma AffixShape()
    ensures |REGISTER| == 9 && REGISTER[0] == '\t' && REGISTER[1] == 'r'
    ensures Free(REGISTER[1..], '\t') && Free(REGISTER, '\n')
    ensures |RUNTIME| == 10 && RUNTIME[9] == '\n' && Free(RUNTIME, '\t') && Free(RUNTIME[..9], '\n')
  {
  }

  lemma TabLineOf(head: string, middle: string, tail: string)
    requires head != "" && head[0] == '\t' && Free(head[1..], '\t') && Free(head, '\n')
    requires Free(middle, '\t') && Free(middle, '\n')
    requires tail != "" && tail[|tail| - 1] == '\n' && Free(tail, '\t') && Free(tail[..|tail| - 1], '\n')
    ensures IsTabLine(head + middle + tail)
  {
    var w := head + middle + tail;
    assert w[1..] == head[1..] + middle + tail;
    assert w[..|w| - 1] == head + middle + tail[..|tail| - 1];
  }

  lemma RegistrationShape(m: Module)
    requires m != Jobs
    ensures IsTabLine(Registration(m)) && Registration(m) != MARKER
  {
    hide Title;
    TitleShape(m);
    AffixShape();
    TabLineOf(REGISTER, Title(m), RUNTIME);
    assert Registration(m)[1] == 'r';
    assert MARKER[1] == '/';
  }

  lemma TitlesDiffer(m: Module, n: Module)
    requires Title(m) == Title(n)
    ensures m == n
  {
    if |Title(m)| >= 4 && |Title(n)| >= 4 {
      assert Title(m)[0] == Title(n)[0] && Title(m)[3] == Title(n)[3];
    }
  }

  /** Registrations of different modules are different lines. */
  lemma RegistrationsDiffer(m: Module, n: Module)
    requires Registration(m) == Registration(n)
    ensures m == n
  {
    hide Title;
    AffixShape();
    assert m != Jobs ==> Registration(m)[9..|Registration(m)| - 10] == Title(m);
    assert n != Jobs ==> Registration(n)[9..|Registration(n)| - 10] == Title(n);
    if m != Jobs && n != Jobs {
      TitlesDiffer(m, n);
    }
  }

  /** How often `w` occurs in `s`. */
  function Occurrences(s: string, w: string): nat {
    if s == "" then 0 else (if w <= s then 1 else 0) + Occurrences(s[1..], w)
  }

  /** An occurrence of a tab line cannot straddle a place where a tab stands. */
  lemma {:induction false} OccurrencesSplit(a: string, b: string, w: string)
    requires IsTabLine(w) && (b == "" || b[0] == '\t')
    ensures Occurrences(a + b, w) == Occurrences(a, w) + Occurrences(b, w)
  {
    if a == "" {
      assert a + b == b;
    } else {
      OccurrencesSplit(a[1..], b, w);
      assert (a + b)[1..] == a[1..] + b;
      TabLineInside(w);
      assert b != "" ==> (a + b)[|a|] == '\t';
      assert w <= a + b ==> w <= a;
    }
  }

  lemma {:induction false} NoTabNoLine(s: string, w: string)
    requires IsTabLine(w) && Free(s, '\t')
    ensures Occurrences(s, w) == 0
  {
    if s != "" {
      NoTabNoLine(s[1..], w);
    }
  }

  lemma OccurrencesInLine(v: string, w: string)
    requires IsTabLine(v) && IsTabLine(w)
    ensures Occurrences(v, w) == if v == w then 1 else 0
  {
    NoTabNoLine(v[1..], w);
    TabLineInside(v);
    TabLineInside(w);
  }

  // ---- inserting registrations ----

  /** strings.Replace(s, old, new, 1). */
  function ReplaceFirst(s: string, target: string, text: string): string {
    var i := IndexOf(s, target);
    if i < 0 then s else s[..i] + text + s[i + |target|..]
  }

  /** What one module does to the routes. */
  function Inserted(routes: string, m: Module): string {
    if m.Jobs? then routes else ReplaceFirst(routes, MARKER, Registration(m) + MARKER)
  }

  function InsertedAll(routes: string, ms: seq<Module>): string
    decreases |ms|
  {
    if ms == [] then routes else InsertedAll(Inserted(routes, ms[0]), ms[1..])
  }

  function Registrations(ms: seq<Module>): string {
    if ms == [] then "" else Registration(ms[0]) + Registrations(ms[1..])
  }

  /** The routes around their first marker. */
  ghost predicate Marked(routes: string, p: string, s: string) {
    routes == p + (MARKER + s) && Occurrences(p, MARKER) == 0
  }

  lemma {:induction false} NoneWithout(s: string, w: string)
    requires forall j: nat :: !OccursAt(s, w, j)
    ensures w != "" ==> Occurrences(s, w) == 0
  {
    if s != "" {
      assert !OccursAt(s, w, 0);
      forall j: nat
        ensures !OccursAt(s[1..], w, j)
      {
        assert !OccursAt(s, w, j + 1);
        assert j + 1 + |w| <= |s| ==> s[1..][j..j + |w|] == s[j + 1..j + 1 + |w|];
      }
      NoneWithout(s[1..], w);
    }
  }

  lemma {:induction false} NoneAt(s: string, w: string, j: nat)
    requires Occurrences(s, w) == 0 && w != ""
    ensures !OccursAt(s, w, j)
  {
    if s != "" && j + |w| <= |s| {
      if j > 0 {
        NoneAt(s[1..], w, j - 1);
        assert s[1..][j - 1..j - 1 + |w|] == s[j..j + |w|];
      } else {
        assert w <= s <==> s[..|w|] == w;
      }
    }
  }

  /** A tab line does not occur across a later tab. */
  lemma NoCrossing(s: string, w: string, j: nat, k: nat)
    requires IsTabLine(w) && j < k < j + |w| && k < |s| && s[k] == '\t'
    ensures !OccursAt(s, w, j)
  {
    TabLineInside(w);
    if j + |w| <= |s| {
      var piece := s[j..j + |w|];
      assert piece[k - j] == '\t';
    }
  }

  /** A tab line after text without it is its first occurrence. */
  lemma FirstLine(p: string, w: string, s: string)
    requires IsTabLine(w) && Occurrences(p, w) == 0
    ensures IndexOf(p + (w + s), w) == |p|
  {
    var all := p + (w + s);
    assert OccursAt(all, w, |p|);
    forall j: nat | j < |p|
      ensures !OccursAt(all, w, j)
    {
      NoneAt(p, w, j);
      if j + |w| <= |p| {
        assert all[j..j + |w|] == p[j..j + |w|];
      } else {
        NoCrossing(all, w, j, |p|);
      }
    }
    IndexOfFirst(all, w, |p|);
  }

  lemma SplitAtFirst(all: string, w: string) returns (p: string, s: string)
    requires w != "" && IndexOf(all, w) >= 0
    ensures all == p + (w + s) && Occurrences(p, w) == 0
  {
    var i := IndexOf(all, w);
    p, s := all[..i], all[i + |w|..];
    forall j: nat
      ensures !OccursAt(p, w, j)
    {
      if j + |w| <= i {
        assert p[j..j + |w|] == all[j..j + |w|];
        assert !OccursAt(all, w, j);
      }
    }
    NoneWithout(p, w);
  }

  lemma FindMarker(routes: string) returns (p: string, s: string)
    requires IndexOf(routes, MARKER) >= 0
    ensures Marked(routes, p, s)
  {
    MarkerShape();
    p, s := SplitAtFirst(routes, MARKER);
  }

  lemma MarkedHasMarker(routes: string, p: string, s: string)
    requires Marked(routes, p, s)
    ensures IndexOf(routes, MARKER) == |p|
  {
    MarkerShape();
    FirstLine(p, MARKER, s);
  }

  lemma ReplacedAt(p: string, w: string, s: string, text: string)
    requires IndexOf(p + (w + s), w) == |p|
    ensures ReplaceFirst(p + (w + s), w, text) == p + text + s
  {
    var all := p + (w + s);
    assert all[..|p|] == p && all[|p| + |w|..] == s;
  }

  lemma LineInserted(p: string, line: string, w: string, s: string)
    requires IsTabLine(line) && IsTabLine(w) && line != w && Occurrences(p, w) == 0
    ensures ReplaceFirst(p + (w + s), w, line + w) == p + line + (w + s)
    ensures Occurrences(p + line, w) == 0
  {
    hide IsTabLine, ReplaceFirst, Occurrences;
    FirstLine(p, w, s);
    ReplacedAt(p, w, s, line + w);
    assert p + (line + w) + s == p + line + (w + s);
    TabLineStart(line);
    OccurrencesSplit(p, line, w);
    OccurrencesInLine(line, w);
  }

  lemma TabLineStart(w: string)
    requires IsTabLine(w)
    ensures w != "" && w[0] == '\t'
  {
  }

  lemma InsertedShape(routes: string, m: Module, p: string, s: string)
    requires Marked(routes, p, s)
    ensures Inserted(routes, m) == p + Registration(m) + (MARKER + s)
    ensures Marked(Inserted(routes, m), p + Registration(m), s)
  {
    hide Occurrences, ReplaceFirst;
    MarkerShape();
    if m == Jobs {
      assert p + Registration(m) == p;
    } else {
      RegistrationShape(m);
      LineInserted(p, Registration(m), MARKER, s);
    }
  }

  /** The new registrations stand together, in request order, right before the first marker, which
      stays the first one. */
  lemma {:induction false} InsertedAllShape(routes: string, ms: seq<Module>, p: string, s: string)
    requires Marked(routes, p, s)
    ensures InsertedAll(routes, ms) == p + Registrations(ms) + (MARKER + s)
    ensures Marked(InsertedAll(routes, ms), p + Registrations(ms), s)
    decreases |ms|
  {
    hide Registration, Inserted, MARKER, Occurrences;
    if ms == [] {
      assert p + "" == p;
    } else {
      InsertedShape(routes, ms[0], p, s);
      InsertedAllShape(Inserted(routes, ms[0]), ms[1..], p + Registration(ms[0]), s);
      assert p + Registration(ms[0]) + Registrations(ms[1..]) == p + Registrations(ms);
    }
  }

  /** Inserting one registration adds one occurrence of that line and of no other tab line. */
  lemma InsertedCount(routes: string, m: Module, w: string)
    requires IndexOf(routes, MARKER) >= 0 && IsTabLine(w)
    ensures IndexOf(Inserted(routes, m), MARKER) >= 0
    ensures Occurrences(Inserted(routes, m), w) == Occurrences(routes, w) + if w == Registration(m) then 1 else 0
  {
    hide MARKER, Occurrences;
    var p, s := FindMarker(routes);
    InsertedShape(routes, m, p, s);
    MarkedHasMarker(Inserted(routes, m), p + Registration(m), s);
    MarkerShape();
    var tail := MARKER + s;
    OccurrencesSplit(p, tail, w);
    if m == Jobs {
      assert p + Registration(m) == p;
    } else {
      RegistrationShape(m);
      OccurrencesSplit(p + Registration(m), tail, w);
      OccurrencesSplit(p, Registration(m), w);
      OccurrencesInLine(Registration(m), w);
    }
  }

  lemma {:induction false} InsertedAllCount(routes: string, ms: seq<Module>, n: Module)
    requires IndexOf(routes, MARKER) >= 0 && NoDuplicates(ms) && n != Jobs
    ensures IndexOf(InsertedAll(routes, ms), MARKER) >= 0
    ensures Occurrences(InsertedAll(routes, ms), Registration(n))
            == Occurrences(routes, Registration(n)) + if n in ms then 1 else 0
    decreases |ms|
  {
    hide Registration, Inserted, MARKER, Occurrences, IndexOf;
    if ms != [] {
      RegistrationShape(n);
      InsertedCount(routes, ms[0], Registration(n));
      if Registration(ms[0]) == Registration(n) {
        RegistrationsDiffer(ms[0], n);
      }
      InsertedAllCount(Inserted(routes, ms[0]), ms[1..], n);
      assert n in ms <==> n == ms[0] || n in ms[1..];
    }
  }

  lemma {:induction false} InsertedAllAppend(routes: string, a: seq<Module>, b: seq<Module>)
    ensures InsertedAll(routes, a + b) == InsertedAll(InsertedAll(routes, a), b)
    decreases |a|
  {
    hide Inserted;
    if a == [] {
      assert a + b == b;
    } else {
      assert (a + b)[1..] == a[1..] + b;
      InsertedAllAppend(Inserted(routes, a[0]), a[1..], b);
    }
  }
}
