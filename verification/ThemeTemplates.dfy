/** The templates a theme stack provides, and the repair of a set of templates that does not load. */
module ThemeTemplates {
  import opened Prelude
  import opened Ancestry
  import opened Themes

  type Sources = map<string, string>

  // ----- template names and the paths they are stored under

  predicate HasSuffix(s: string, suffix: string) {
    |s| >= |suffix| && s[|s| - |suffix|..] == suffix
  }

  function StripSuffix(s: string, suffix: string): Option<string> {
    if HasSuffix(s, suffix) then Some(s[..|s| - |suffix|]) else None
  }

  const HTML := ".html"
  const INDEX := "/index"

  /** `a.html` and `a/index.html` both hold template `a`; other files hold none. */
  function TemplateName(path: string): Option<string> {
    var stem := StripSuffix(path, HTML);
    if stem.None? then None
    else if stem.value == "index" then stem
    else
      var folder := StripSuffix(stem.value, INDEX);
      if folder.Some? then folder else stem
  }

  /** Where `has_template` looks for a template. */
  function TemplatePaths(name: string): seq<string> {
    if name == "index" then ["index.html", "index.html"] else [name + HTML, name + INDEX + HTML]
  }

  lemma StripAdded(s: string, suffix: string)
    ensures StripSuffix(s + suffix, suffix) == Some(s)
  {
    assert (s + suffix)[|s|..] == suffix;
    assert (s + suffix)[..|s|] == s;
  }

  lemma StripRestores(s: string, suffix: string)
    requires HasSuffix(s, suffix)
    ensures s == StripSuffix(s, suffix).value + suffix
  {
  }

  lemma IndexPaths()
    ensures "index" + INDEX == "index/index" && !HasSuffix("index", INDEX)
    ensures "index/index" + HTML == "index/index.html" && "index" + HTML == "index.html"
    ensures StripSuffix("index/index.html", HTML) == Some("index/index")
    ensures StripSuffix("index/index", INDEX) == Some("index") && StripSuffix("index.html", HTML) == Some("index")
  {
    StripAdded("index", HTML);
    StripAdded("index/index", HTML);
    StripAdded("index", INDEX);
    assert "index" + INDEX == "index/index" && "index/index" + HTML == "index/index.html"
        && "index" + HTML == "index.html";
  }

  /** Looking a template up by path and naming a path agree, except that `index/index.html` is named
      `index` but not looked for, and `x/index.html` is looked for as `x/index` but named `x`. */
  lemma PathsNameTheTemplate(path: string, name: string)
    ensures TemplateName(path) == Some(name) && path !in TemplatePaths(name)
            <==> path == "index/index.html" && name == "index"
    ensures path in TemplatePaths(name) && TemplateName(path) != Some(name)
            <==> HasSuffix(name, INDEX) && path == name + HTML
  {
    IndexPaths();
    StripAdded(name, HTML);
    StripAdded(name + INDEX, HTML);
    StripAdded(name, INDEX);
    if HasSuffix(path, HTML) {
      StripRestores(path, HTML);
      var stem := StripSuffix(path, HTML).value;
      if HasSuffix(stem, INDEX) {
        StripRestores(stem, INDEX);
      }
    }
  }

  // ----- the stack's templates

  function Qualified(theme: string, name: string): string {
    "@" + theme + "/" + name
  }

  /** A theme's own source for a name: the last in path order. */
  function Provided(templates: seq<(string, string)>, name: string): Option<string>
    decreases |templates|
  {
    if templates == [] then None
    else
      var last := templates[|templates| - 1];
      if last.0 == name then Some(last.1) else Provided(templates[..|templates| - 1], name)
  }

  /** What one theme leaves under a key: each template is put under its qualified, then its plain name. */
  function Claim(theme: string, templates: seq<(string, string)>, key: string): Option<string>
    decreases |templates|
  {
    if templates == [] then None
    else
      var last := templates[|templates| - 1];
      if last.0 == key || Qualified(theme, last.0) == key then Some(last.1)
      else Claim(theme, templates[..|templates| - 1], key)
  }

  /** The most specific theme's claim. */
  function Sourced(chain: seq<Theme>, key: string): Option<string> {
    if chain == [] then None
    else
      var own := Claim(chain[0].name, chain[0].templates, key);
      if own.Some? then own else Sourced(chain[1..], key)
  }

  function Lookup(m: Sources, key: string): Option<string> {
    if key in m then Some(m[key]) else None
  }

  /** Plain names map to the most specific theme's source, filled from the root ancestor up. */
  method TemplateSources(chain: seq<Theme>) returns (out: Sources)
    ensures forall key :: Lookup(out, key) == Sourced(chain, key)
  {
    out := map[];
    var i := |chain|;
    while i > 0
      invariant 0 <= i <= |chain|
      invariant forall key :: Lookup(out, key) == Sourced(chain[i..], key)
    {
      i := i - 1;
      var theme := chain[i];
      ghost var below := out;
      for k := 0 to |theme.templates|
        invariant forall key :: Lookup(out, key) ==
                                var own := Claim(theme.name, theme.templates[..k], key);
                                if own.Some? then own else Lookup(below, key)
      {
        var (name, source) := theme.templates[k];
        assert theme.templates[..k + 1][..k] == theme.templates[..k];
        out := out[Qualified(theme.name, name) := source];
        out := out[name := source];
      }
      assert theme.templates[..|theme.templates|] == theme.templates;
      assert chain[i..][0] == theme && chain[i..][1..] == chain[i + 1..];
    }
    assert chain[0..] == chain;
  }

  /** Template names never start with `@`, and theme names hold no `/`. */
  ghost predicate PlainNames(chain: seq<Theme>) {
    forall i | 0 <= i < |chain| :: '/' !in chain[i].name && PlainTemplates(chain[i].templates)
  }

  ghost predicate PlainTemplates(templates: seq<(string, string)>) {
    forall k | 0 <= k < |templates| :: !("@" <= templates[k].0)
  }

  lemma {:induction false} QualifiedInjective(t: string, u: string, a: string, b: string)
    requires '/' !in t && '/' !in u && Qualified(t, a) == Qualified(u, b)
    ensures t == u && a == b
  {
    var x, y := Qualified(t, a), Qualified(u, b);
    assert x[|t| + 1] == '/' && y[|u| + 1] == '/';
    assert forall i | 0 <= i < |t| :: x[i + 1] == t[i];
    assert forall i | 0 <= i < |u| :: y[i + 1] == u[i];
    assert x[1..|t| + 1] == t && y[1..|u| + 1] == u;
    assert x[|t| + 2..] == a && y[|u| + 2..] == b;
  }

  lemma {:induction false} PlainClaim(theme: string, templates: seq<(string, string)>, name: string)
    requires PlainTemplates(templates) && !("@" <= name)
    ensures Claim(theme, templates, name) == Provided(templates, name)
    decreases |templates|
  {
    if templates != [] {
      PlainClaim(theme, templates[..|templates| - 1], name);
      assert "@" <= Qualified(theme, templates[|templates| - 1].0);
    }
  }

  /** A plain name shows the first theme, child first, that has the template. */
  lemma {:induction false} PlainIsMostSpecific(chain: seq<Theme>, name: string, i: nat)
    requires PlainNames(chain) && !("@" <= name) && i < |chain|
    requires Provided(chain[i].templates, name).Some?
    requires forall j | 0 <= j < i :: Provided(chain[j].templates, name).None?
    ensures Sourced(chain, name) == Provided(chain[i].templates, name)
    decreases i
  {
    PlainClaim(chain[0].name, chain[0].templates, name);
    if i > 0 {
      assert forall j | 0 <= j < |chain| - 1 :: chain[1..][j] == chain[j + 1];
      PlainIsMostSpecific(chain[1..], name, i - 1);
    }
  }

  /** The last entry, in path order, of either name. */
  function LastOf(templates: seq<(string, string)>, name: string, other: string): Option<string>
    decreases |templates|
  {
    if templates == [] then None
    else
      var last := templates[|templates| - 1];
      if last.0 == name || last.0 == other then Some(last.1) else LastOf(templates[..|templates| - 1], name, other)
  }

  /** The first theme's template of literally that name. */
  function FirstLiteral(chain: seq<Theme>, key: string): Option<string> {
    if chain == [] then None
    else
      var own := Provided(chain[0].templates, key);
      if own.Some? then own else FirstLiteral(chain[1..], key)
  }

  lemma SameTheme(theme: string, a: string, b: string)
    ensures Qualified(theme, a) == Qualified(theme, b) <==> a == b
  {
    assert Qualified(theme, a)[|theme| + 2..] == a && Qualified(theme, b)[|theme| + 2..] == b;
  }

  lemma {:induction false} OwnClaim(theme: string, templates: seq<(string, string)>, name: string)
    ensures Claim(theme, templates, Qualified(theme, name)) == LastOf(templates, name, Qualified(theme, name))
    decreases |templates|
  {
    if templates != [] {
      OwnClaim(theme, templates[..|templates| - 1], name);
      SameTheme(theme, templates[|templates| - 1].0, name);
    }
  }

  lemma {:induction false} LiteralClaim(theme: string, templates: seq<(string, string)>, owner: string, name: string)
    requires '/' !in theme && '/' !in owner && theme != owner
    ensures Claim(theme, templates, Qualified(owner, name)) == Provided(templates, Qualified(owner, name))
    decreases |templates|
  {
    if templates != [] {
      LiteralClaim(theme, templates[..|templates| - 1], owner, name);
      var last := templates[|templates| - 1].0;
      if Qualified(theme, last) == Qualified(owner, name) {
        QualifiedInjective(theme, owner, last, name);
      }
    }
  }

  lemma {:induction false} SourcedSplit(chain: seq<Theme>, key: string, i: nat)
    requires i <= |chain|
    ensures Sourced(chain, key) ==
            if Sourced(chain[..i], key).Some? then Sourced(chain[..i], key) else Sourced(chain[i..], key)
  {
    if i == 0 {
      assert chain[0..] == chain;
    } else {
      SourcedSplit(chain[1..], key, i - 1);
      assert chain[..i][1..] == chain[1..][..i - 1] && chain[1..][i - 1..] == chain[i..];
    }
  }

  /** Whether the key `@theme/name` shows theme `i`'s own copy, exactly: the more specific themes put
      nothing under the key, or that very source, and in the theme itself no template literally named
      like the key comes after the copy, unless with that source. */
  lemma OwnCopyServed(chain: seq<Theme>, name: string, i: nat)
    requires i < |chain| && Provided(chain[i].templates, name).Some?
    ensures var own, key := Provided(chain[i].templates, name), Qualified(chain[i].name, name);
            Sourced(chain, key) == own <==>
            if Sourced(chain[..i], key).Some? then Sourced(chain[..i], key) == own
            else LastOf(chain[i].templates, name, key) == own
  {
    var key := Qualified(chain[i].name, name);
    SourcedSplit(chain, key, i);
    OwnClaim(chain[i].name, chain[i].templates, name);
    LastOfSome(chain[i].templates, name, key);
    assert chain[i..][0] == chain[i];
  }

  lemma {:induction false} LastOfSome(templates: seq<(string, string)>, name: string, other: string)
    ensures Provided(templates, name).Some? ==> LastOf(templates, name, other).Some?
    ensures Provided(templates, other).None? ==> LastOf(templates, name, other) == Provided(templates, name)
    decreases |templates|
  {
    if templates != [] { LastOfSome(templates[..|templates| - 1], name, other); }
  }

  /** Among distinct theme names without `/`, only a template literally named like the key is in the way:
      the first theme's that has one. */
  lemma {:induction false} OnlyLiteralsTake(chain: seq<Theme>, owner: string, name: string)
    requires '/' !in owner && forall j | 0 <= j < |chain| :: '/' !in chain[j].name && chain[j].name != owner
    ensures Sourced(chain, Qualified(owner, name)) == FirstLiteral(chain, Qualified(owner, name))
  {
    if chain != [] {
      LiteralClaim(chain[0].name, chain[0].templates, owner, name);
      OnlyLiteralsTake(chain[1..], owner, name);
    }
  }

  ghost predicate DistinctSlashless(chain: seq<Theme>) {
    && (forall j | 0 <= j < |chain| :: '/' !in chain[j].name)
    && forall j, k | 0 <= j < k < |chain| :: chain[j].name != chain[k].name
  }

  /** For such theme names, exactly: no more specific theme has a template literally named like the key, or
      the first that has one has the same source; and the same holds of later files of the theme itself. */
  lemma OwnCopyExactly(chain: seq<Theme>, name: string, i: nat)
    requires DistinctSlashless(chain) && i < |chain| && Provided(chain[i].templates, name).Some?
    ensures var own, key := Provided(chain[i].templates, name), Qualified(chain[i].name, name);
            Sourced(chain, key) == own <==>
            if FirstLiteral(chain[..i], key).Some? then FirstLiteral(chain[..i], key) == own
            else LastOf(chain[i].templates, name, key) == own
  {
    OwnCopyServed(chain, name, i);
    OnlyLiteralsTake(chain[..i], chain[i].name, name);
  }

  lemma {:induction false} NoLiterals(chain: seq<Theme>, key: string)
    requires "@" <= key && PlainNames(chain)
    ensures FirstLiteral(chain, key).None?
  {
    if chain != [] {
      NoLiteral(chain[0].templates, key);
      NoLiterals(chain[1..], key);
    }
  }

  lemma {:induction false} NoLiteral(templates: seq<(string, string)>, key: string)
    requires "@" <= key && PlainTemplates(templates)
    ensures Provided(templates, key).None?
    decreases |templates|
  {
    if templates != [] { NoLiteral(templates[..|templates| - 1], key); }
  }

  /** So with plain names every theme's own copy is there as `@theme/name`, whatever the others hold. */
  lemma OwnCopyAvailable(chain: seq<Theme>, name: string, i: nat)
    requires PlainNames(chain) && i < |chain|
    requires forall j, k | 0 <= j < k < |chain| :: chain[j].name != chain[k].name
    ensures Provided(chain[i].templates, name).Some? ==>
              Sourced(chain, Qualified(chain[i].name, name)) == Provided(chain[i].templates, name)
  {
    if Provided(chain[i].templates, name).Some? {
      var key := Qualified(chain[i].name, name);
      OwnCopyExactly(chain, name, i);
      NoLiterals(chain[..i], key);
      NoLiteral(chain[i].templates, key);
      LastOfSome(chain[i].templates, name, key);
    }
  }

  /** Names outside `PlainNames` can take another theme's own copy: a template file `@base/index.html`. */
  lemma OwnCopyCanBeTaken()
    ensures var base := Theme("base", None, None, [("index", "BASE")]);
            var child := Theme("child", Some("base"), None, [("@base/index", "CHILD")]);
            Sourced([child, base], Qualified("base", "index")) == Some("CHILD")
            && Provided(base.templates, "index") == Some("BASE")
  {
    var own := [("@base/index", "CHILD")];
    assert Qualified("base", "index") == "@base/index";
    assert own[|own| - 1].0 == "@base/index";
    assert Claim("child", own, "@base/index") == Some("CHILD");
    var based := [("index", "BASE")];
    assert based[|based| - 1].0 == "index";
  }

  // ----- loading, and the repair of what does not load

  datatype Report = Broken(name: string) | Orphan(name: string, parent: string) | Batch

  /** Every template that extends one extends a member. */
  ghost predicate Closed(ps: Parents, names: set<string>) {
    names <= ps.Keys && forall n | n in names && ps[n].Some? :: ps[n].value in names
  }

  /** The largest set of parsed templates closed under `extends`. */
  ghost predicate Greatest(ps: Parents, names: set<string>) {
    Closed(ps, names) && forall other: set<string> | Closed(ps, other) :: other <= names
  }

  lemma GreatestUnique(ps: Parents, a: set<string>, b: set<string>)
    requires Greatest(ps, a) && Greatest(ps, b)
    ensures a == b
  {
  }

  predicate IsOrphan(ps: Parents, name: string) {
    name in ps && ps[name].Some? && ps[name].value !in ps
  }

  ghost predicate Told(reports: seq<Report>, r: Report) {
    exists k :: 0 <= k < |reports| && reports[k] == r
  }

  lemma ToldMore(told: seq<Report>, r: Report)
    ensures forall x :: Told(told + [r], x) <==> Told(told, x) || x == r
  {
    forall x ensures Told(told + [r], x) <==> Told(told, x) || x == r {
      if Told(told, x) {
        var k :| 0 <= k < |told| && told[k] == x;
        assert (told + [r])[k] == x;
      }
      assert (told + [r])[|told|] == r;
    }
  }

  /** Exactly the dropped templates are reported, each with the parent it extends. */
  ghost predicate DropsTold(ps: Parents, kept: Parents, reports: seq<Report>) {
    forall n | n in ps :: n !in kept <==> Told(reports, OrphanOf(ps, n))
  }

  ghost predicate OnlyDrops(ps: Parents, kept: Parents, reports: seq<Report>) {
    forall k | 0 <= k < |reports| :: reports[k].Orphan? && reports[k].name in ps && reports[k].name !in kept
  }

  ghost predicate Distinct(reports: seq<Report>) {
    forall j, k | 0 <= j < k < |reports| :: reports[j] != reports[k]
  }

  /** One report for each dropped template, naming the parent it extends. */
  ghost predicate ReportsDrops(ps: Parents, kept: Parents, reports: seq<Report>) {
    DropsTold(ps, kept, reports) && OnlyDrops(ps, kept, reports) && Distinct(reports)
  }

  function OrphanOf(ps: Parents, name: string): Report {
    if name in ps && ps[name].Some? then Orphan(name, ps[name].value) else Broken(name)
  }

  /** The repair loop: whichever orphan is taken first, what stays is the greatest closed set and
      each dropped template is reported exactly once. */
  method Repair(parsed: Parents) returns (kept: Parents, reports: seq<Report>)
    ensures Greatest(parsed, kept.Keys)
    ensures forall n | n in kept :: kept[n] == parsed[n]
    ensures ReportsDrops(parsed, kept, reports)
  {
    kept := parsed;
    reports := [];
    while exists n :: n in kept && IsOrphan(kept, n)
      invariant kept.Keys <= parsed.Keys && forall n | n in kept :: kept[n] == parsed[n]
      invariant forall other: set<string> | Closed(parsed, other) :: other <= kept.Keys
      invariant ReportsDrops(parsed, kept, reports)
      decreases |kept|
    {
      var name :| name in kept && IsOrphan(kept, name);
      ghost var before, told := kept, reports;
      var report := Orphan(name, kept[name].value);
      assert report == OrphanOf(parsed, name);
      forall other: set<string> | Closed(parsed, other) ensures name !in other {
      }
      kept := kept - {name};
      assert before.Keys == kept.Keys + {name};
      reports := reports + [report];
      DropOne(parsed, before, kept, told, name);
    }
    forall n | n in kept && parsed[n].Some? ensures parsed[n].value in kept.Keys {
      assert !IsOrphan(kept, n);
    }
  }

  lemma DropTold(parsed: Parents, before: Parents, kept: Parents, told: seq<Report>, name: string, report: Report)
    requires name in before && kept.Keys == before.Keys - {name} && name in parsed
    requires report.Orphan? && report.name == name && report == OrphanOf(parsed, name)
             && DropsTold(parsed, before, told)
    ensures DropsTold(parsed, kept, told + [report])
  {
    ToldMore(told, report);
    forall n | n in parsed ensures n !in kept <==> Told(told + [report], OrphanOf(parsed, n)) {
      assert n != name ==> OrphanOf(parsed, n) != report;
    }
  }

  lemma DropDistinct(parsed: Parents, before: Parents, kept: Parents, told: seq<Report>, name: string, report: Report)
    requires name in before && kept.Keys == before.Keys - {name} && name in parsed && report.Orphan?
             && report.name == name
    requires OnlyDrops(parsed, before, told) && Distinct(told)
    ensures OnlyDrops(parsed, kept, told + [report]) && Distinct(told + [report])
  {
  }

  lemma DropOne(parsed: Parents, before: Parents, kept: Parents, told: seq<Report>, name: string)
    requires before.Keys <= parsed.Keys && name in before && kept.Keys == before.Keys - {name} && parsed[name].Some?
    requires ReportsDrops(parsed, before, told)
    ensures ReportsDrops(parsed, kept, told + [OrphanOf(parsed, name)])
  {
    DropTold(parsed, before, kept, told, name, OrphanOf(parsed, name));
    DropDistinct(parsed, before, kept, told, name, OrphanOf(parsed, name));
  }

  // ----- the whole load

  /** What parsing a source yields: the template it extends, or a failure. */
  type Parser = string -> Option<Option<string>>

  /** The sources that parse, each with what it extends. */
  function ParsedOf(sources: Sources, parse: Parser): Parents {
    map n | n in sources && parse(sources[n]).Some? :: parse(sources[n]).value
  }

  ghost predicate NoCircle(ps: Parents, names: set<string>) {
    forall n | n in names :: !OnCycle(ps, n)
  }

  /** What the engine takes as one batch: everything parses, no parent is missing, no `extends` circle. */
  ghost predicate Accepts(sources: Sources, parse: Parser) {
    var ps := ParsedOf(sources, parse);
    ps.Keys == sources.Keys && Closed(ps, ps.Keys) && NoCircle(ps, ps.Keys)
  }

  function Restrict(sources: Sources, names: set<string>): Sources {
    map n | n in sources && n in names :: sources[n]
  }

  /** The templates reported by name are exactly those left out. */
  ghost predicate LeftOutReported(sources: Sources, kept: set<string>, reports: seq<Report>) {
    forall n | n in sources :: n in kept <==> !Told(reports, Broken(n)) && !ToldOrphan(reports, n)
  }

  lemma ToldJoin(a: seq<Report>, b: seq<Report>, r: Report)
    ensures Told(a + b, r) <==> Told(a, r) || Told(b, r)
  {
    if Told(a, r) {
      var k :| 0 <= k < |a| && a[k] == r;
      assert (a + b)[k] == r;
    }
    if Told(b, r) {
      var k :| 0 <= k < |b| && b[k] == r;
      assert (a + b)[|a| + k] == r;
    }
  }

  lemma AllTold(sources: Sources, ps: Parents, rest: Parents, broken: seq<Report>, drops: seq<Report>)
    requires ps.Keys <= sources.Keys && rest.Keys <= ps.Keys && ReportsDrops(ps, rest, drops)
    requires OnlyBroken(broken)
    requires forall n :: n in sources && n !in ps <==> Told(broken, Broken(n))
    requires Distinct(broken)
    ensures LeftOutReported(sources, rest.Keys, broken + drops)
    ensures !Told(broken + drops, Batch)
    ensures Distinct(broken + drops)
  {
    forall n | n in sources ensures n in rest <==> !Told(broken + drops, Broken(n)) && !ToldOrphan(broken + drops, n) {
      ToldJoin(broken, drops, Broken(n));
      OrphanTold(ps, rest, broken, drops, n);
    }
    ToldJoin(broken, drops, Batch);
  }

  ghost predicate OnlyBroken(reports: seq<Report>) {
    forall k | 0 <= k < |reports| :: reports[k].Broken?
  }

  ghost predicate ToldOrphan(reports: seq<Report>, name: string) {
    exists parent :: Told(reports, Orphan(name, parent))
  }

  lemma OrphanTold(ps: Parents, rest: Parents, broken: seq<Report>, drops: seq<Report>, name: string)
    requires DropsTold(ps, rest, drops) && OnlyDrops(ps, rest, drops) && OnlyBroken(broken)
    ensures ToldOrphan(broken + drops, name) <==> name in ps && name !in rest
  {
    if ToldOrphan(broken + drops, name) {
      var parent :| Told(broken + drops, Orphan(name, parent));
      ToldJoin(broken, drops, Orphan(name, parent));
    }
    if name in ps && name !in rest {
      var r := OrphanOf(ps, name);
      ToldJoin(broken, drops, r);
      var k :| 0 <= k < |drops| && drops[k] == r;
      assert r == Orphan(name, r.parent);
    }
  }

  lemma BatchTold(sources: Sources, kept: set<string>, reports: seq<Report>)
    requires LeftOutReported(sources, kept, reports)
    ensures LeftOutReported(sources, kept, reports + [Batch]) && Told(reports + [Batch], Batch)
  {
    ToldMore(reports, Batch);
    forall n ensures ToldOrphan(reports + [Batch], n) <==> ToldOrphan(reports, n) {
      if ToldOrphan(reports, n) {
        var parent :| Told(reports, Orphan(n, parent));
        assert Told(reports + [Batch], Orphan(n, parent));
      }
    }
  }

  /** A closed set's walks stay inside it. */
  lemma {:induction false} WalkInside(ps: Parents, part: Parents, name: string, k: nat)
    requires Closed(ps, part.Keys) && (forall n | n in part :: part[n] == ps[n]) && name in part
    ensures Up(part, name, k) == Up(ps, name, k)
    decreases k
  {
    if k > 0 && ps[name].Some? { WalkInside(ps, part, ps[name].value, k - 1); }
  }

  lemma BatchVerdict(sources: Sources, parse: Parser, kept: set<string>)
    requires Closed(ParsedOf(sources, parse), kept)
    ensures Accepts(Restrict(sources, kept), parse) <==> NoCircle(ParsedOf(sources, parse), kept)
  {
    var ps := ParsedOf(sources, parse);
    var part := ParsedOf(Restrict(sources, kept), parse);
    assert part.Keys == kept;
    forall n | n in kept ensures OnCycle(part, n) <==> OnCycle(ps, n) {
      forall k: nat ensures Up(part, n, k) == Up(ps, n, k) { WalkInside(ps, part, n, k); }
    }
  }

  ghost predicate IsVerdict(accepts: Sources -> bool, parse: Parser) {
    forall s :: accepts(s) <==> Accepts(s, parse)
  }

  lemma WholeSet(sources: Sources, parse: Parser)
    requires Accepts(sources, parse)
    ensures Greatest(ParsedOf(sources, parse), sources.Keys) && Restrict(sources, sources.Keys) == sources
    ensures NoCircle(ParsedOf(sources, parse), sources.Keys)
    ensures LeftOutReported(sources, sources.Keys, []) && !Told([], Batch)
  {
  }

  /** The parse pass of the repair: what parses, and a report for everything else. */
  method ParseAll(sources: Sources, parse: Parser) returns (parsed: Parents, reports: seq<Report>)
    ensures parsed == ParsedOf(sources, parse)
    ensures OnlyBroken(reports)
    ensures forall n :: n in sources && n !in parsed <==> Told(reports, Broken(n))
    ensures Distinct(reports)
  {
    ghost var ps := ParsedOf(sources, parse);
    reports := [];
    parsed := map[];
    var pending := sources.Keys;
    while pending != {}
      invariant pending <= sources.Keys
      invariant forall n :: n in parsed <==> n in ps && n !in pending
      invariant forall n | n in parsed :: parsed[n] == ps[n]
      invariant OnlyBroken(reports)
      invariant forall n :: n in sources && n !in pending && n !in ps <==> Told(reports, Broken(n))
      invariant Distinct(reports)
    {
      var name :| name in pending;
      pending := pending - {name};
      var tpl := parse(sources[name]);
      if tpl.Some? {
        parsed := parsed[name := tpl.value];
      } else {
        ghost var told := reports;
        assert !Told(told, Broken(name));
        reports := reports + [Broken(name)];
        ToldMore(told, Broken(name));
      }
    }
  }

  /** What is left after parsing and repair, and what was reported on the way. */
  method Repaired(sources: Sources, parse: Parser)
      returns (batch: Sources, reports: seq<Report>, ghost kept: set<string>)
    ensures Greatest(ParsedOf(sources, parse), kept) && batch == Restrict(sources, kept)
    ensures Accepts(batch, parse) <==> NoCircle(ParsedOf(sources, parse), kept)
    ensures !Told(reports, Batch) && LeftOutReported(sources, kept, reports)
    ensures Distinct(reports)
  {
    var parsed, broken := ParseAll(sources, parse);
    var rest, drops := Repair(parsed);
    kept := rest.Keys;
    reports := broken + drops;
    AllTold(sources, parsed, rest, broken, drops);
    batch := Restrict(sources, rest.Keys);
    BatchVerdict(sources, parse, kept);
  }

  /** What a load comes to: the batch the engine accepted, if it accepted one, is the greatest closed set
      of what parses; it accepts none exactly when that set has a circle of `extends`, and that is
      reported as the batch's failure. What a refused batch leaves in the engine is not said. */
  ghost predicate Loads(sources: Sources, parse: Parser, accepted: Option<Sources>, reports: seq<Report>,
      kept: set<string>) {
    && Greatest(ParsedOf(sources, parse), kept)
    && accepted == (if NoCircle(ParsedOf(sources, parse), kept) then Some(Restrict(sources, kept)) else None)
    && (Told(reports, Batch) <==> accepted.None?)
    && LeftOutReported(sources, kept, reports)
    && Distinct(reports)
  }

  /** Offers everything to the engine; if it refuses, what parses and extends only such templates, with one
      report for each template left out. `accepts` is the engine's verdict on a batch. */
  method LoadInto(sources: Sources, parse: Parser, accepts: Sources -> bool)
    returns (accepted: Option<Sources>, reports: seq<Report>)
    requires IsVerdict(accepts, parse)
    ensures exists kept :: Loads(sources, parse, accepted, reports, kept)
  {
    if accepts(sources) {
      WholeSet(sources, parse);
      assert Loads(sources, parse, Some(sources), [], sources.Keys);
      return Some(sources), [];
    }
    ghost var kept;
    var batch;
    batch, reports, kept := Repaired(sources, parse);
    if accepts(batch) {
      accepted := Some(batch);
    } else {
      accepted := None;
      BatchTold(sources, kept, reports);
      reports := reports + [Batch];
    }
    assert Loads(sources, parse, accepted, reports, kept);
  }

  /** Two pages that extend each other and a sound one beside them: the repair drops nothing and names
      nothing, and the engine refuses the batch. */
  lemma CircleIsRefused(accepted: Option<Sources>, reports: seq<Report>, kept: set<string>)
    requires Loads(CIRCLE, ParseSketch, accepted, reports, kept)
    ensures accepted == None && Told(reports, Batch) && kept == CIRCLE.Keys
    ensures forall n | n in CIRCLE :: !Told(reports, Broken(n)) && !ToldOrphan(reports, n)
  {
    var ps := ParsedOf(CIRCLE, ParseSketch);
    assert "a" in CIRCLE && "b" in CIRCLE && "c" in CIRCLE;
    assert ps["a"] == Some("b") && ps["b"] == Some("a") && ps["c"] == None;
    assert ps.Keys == CIRCLE.Keys;
    assert Closed(ps, ps.Keys);
    assert Up(ps, "a", 2) == Some("a");
    assert OnCycle(ps, "a");
  }

  const CIRCLE: Sources := map["a" := "extends b", "b" := "extends a", "c" := "hello"]

  /** Reads the three sources of `CIRCLE`. */
  function ParseSketch(source: string): Option<Option<string>> {
    if source == "extends b" then Some(Some("b"))
    else if source == "extends a" then Some(Some("a"))
    else Some(None)
  }
}
