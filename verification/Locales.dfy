/** Locale layering: deep merge of translation trees, the layers of an app, and per-key fallback to the
    default language. */
module Locales {
  import opened Prelude

  /** A JSON value; everything that is not an object is a leaf. */
  datatype Json = Obj(fields: map<string, Json>) | Leaf(text: string)

  /** Objects merge recursively; everything else in `o` replaces what `b` has. */
  function Merge(b: Json, o: Json): (r: Json)
    ensures b.Leaf? || o.Leaf? ==> r == o
    ensures b.Obj? && o.Obj? ==> r.Obj? && r.fields.Keys == b.fields.Keys + o.fields.Keys
    decreases o
  {
    if b.Leaf? || o.Leaf? then o
    else Obj(map k | k in b.fields.Keys + o.fields.Keys ::
               if k !in o.fields then b.fields[k]
               else if k !in b.fields then o.fields[k]
               else Merge(b.fields[k], o.fields[k]))
  }

  /** Key `k` while the keys `pending` of the overlay are still to come. */
  ghost function Partly(base: Json, overlay: Json, pending: set<string>, k: string): Json
    requires base.Obj? && overlay.Obj? && k in base.fields.Keys + (overlay.fields.Keys - pending)
  {
    if k in overlay.fields && k !in pending then Merge(base, overlay).fields[k] else base.fields[k]
  }

  /** The merge as the source runs it: key by key into `base`, in any order. */
  method MergeLocale(base: Json, overlay: Json) returns (merged: Json)
    ensures merged == Merge(base, overlay)
    decreases overlay
  {
    if base.Leaf? || overlay.Leaf? { return overlay; }
    var fields := base.fields;
    var pending := overlay.fields.Keys;
    while pending != {}
      invariant pending <= overlay.fields.Keys
      invariant fields.Keys == base.fields.Keys + (overlay.fields.Keys - pending)
      invariant forall k | k in fields :: fields[k] == Partly(base, overlay, pending, k)
    {
      var key :| key in pending;
      pending := pending - {key};
      var value := overlay.fields[key];
      if key in fields && fields[key].Obj? && value.Obj? {
        var inner := MergeLocale(fields[key], value);
        fields := fields[key := inner];
      } else {
        fields := fields[key := value];
      }
    }
    assert fields == Merge(base, overlay).fields;
    merged := Obj(fields);
  }

  // ----- what is where

  type Path = seq<string>

  function At(j: Json, p: Path): Option<Json>
    decreases p
  {
    if p == [] then Some(j)
    else if j.Obj? && p[0] in j.fields then At(j.fields[p[0]], p[1..])
    else None
  }

  /** A leaf stands on the way to `p`. */
  predicate Blocks(j: Json, p: Path)
    decreases p
  {
    p != [] && (j.Leaf? || (p[0] in j.fields && Blocks(j.fields[p[0]], p[1..])))
  }

  /** `o` says nothing about `p`: neither a value there nor a leaf on the way. */
  predicate Untouched(o: Json, p: Path) {
    At(o, p).None? && !Blocks(o, p)
  }

  /** What a merge has at every path. */
  lemma {:induction false} MergeAt(b: Json, o: Json, p: Path)
    ensures At(Merge(b, o), p) ==
            if Untouched(o, p) then At(b, p)
            else if At(o, p).None? then None
            else if At(b, p).Some? then Some(Merge(At(b, p).value, At(o, p).value))
            else At(o, p)
    decreases p
  {
    if p != [] && b.Obj? && o.Obj? {
      var k := p[0];
      if k in b.fields && k in o.fields {
        MergeAt(b.fields[k], o.fields[k], p[1..]);
      } else if k in o.fields {
        BlocksOrAt(o.fields[k], p[1..]);
      }
    }
  }

  lemma {:induction false} BlocksOrAt(j: Json, p: Path)
    ensures Blocks(j, p) ==> At(j, p).None?
    decreases p
  {
    if p != [] && j.Obj? && p[0] in j.fields { BlocksOrAt(j.fields[p[0]], p[1..]); }
  }

  /** Every leaf of the overlay wins, and every path the overlay does not touch survives. */
  lemma OverlayWins(b: Json, o: Json, p: Path)
    ensures At(o, p).Some? && At(o, p).value.Leaf? ==> At(Merge(b, o), p) == At(o, p)
    ensures Untouched(o, p) ==> At(Merge(b, o), p) == At(b, p)
    ensures At(Merge(b, o), p).Some? && At(Merge(b, o), p).value.Leaf? ==>
              At(Merge(b, o), p) == At(o, p) || At(Merge(b, o), p) == At(b, p)
  {
    MergeAt(b, o, p);
  }

  /** Merging the same overlay twice changes nothing, whatever lies below. */
  lemma {:induction false} MergeTwice(b: Json, o: Json)
    ensures Merge(Merge(b, o), o) == Merge(b, o)
    decreases o
  {
    MergeSame(o);
    if b.Obj? && o.Obj? {
      var m := Merge(b, o);
      forall k | k in m.fields ensures Merge(m, o).fields[k] == m.fields[k] {
        if k in o.fields {
          if k in b.fields { MergeTwice(b.fields[k], o.fields[k]); } else { MergeSame(o.fields[k]); }
        }
      }
    }
  }

  lemma {:induction false} MergeSame(o: Json)
    ensures Merge(o, o) == o
    decreases o
  {
    if o.Obj? {
      forall k | k in o.fields ensures Merge(o, o).fields[k] == o.fields[k] { MergeSame(o.fields[k]); }
    }
  }

  /** Filling in from below twice changes nothing either. */
  lemma {:induction false} FillTwice(b: Json, o: Json)
    ensures Merge(b, Merge(b, o)) == Merge(b, o)
    decreases o
  {
    if b.Obj? && o.Obj? {
      var m := Merge(b, o);
      forall k | k in m.fields ensures Merge(b, m).fields[k] == m.fields[k] {
        if k in b.fields {
          if k in o.fields { FillTwice(b.fields[k], o.fields[k]); } else { MergeSame(b.fields[k]); }
        }
      }
    }
  }

  // ----- the layers

  /** One layer's languages. */
  type Layer = map<string, Json>

  const EMPTY := Obj(map[])

  function Of(layer: Layer, lang: string): Option<Json> {
    if lang in layer then Some(layer[lang]) else None
  }

  function OrEmpty(j: Option<Json>): Json {
    if j.Some? then j.value else EMPTY
  }

  /** A language after the framework's own layer and `layers`, bottom up. */
  function Layered(framework: Layer, layers: seq<Layer>, lang: string): Option<Json>
    decreases |layers|
  {
    if layers == [] then Of(framework, lang)
    else
      var below := Layered(framework, layers[..|layers| - 1], lang);
      var top := layers[|layers| - 1];
      if lang in top then Some(Merge(OrEmpty(below), top[lang])) else below
  }

  /** Language `lang` while the languages `pending` of `layer` are still to come. */
  ghost function Overlaid(before: Layer, layer: Layer, pending: set<string>, lang: string): Option<Json> {
    if lang in layer && lang !in pending then Some(Merge(OrEmpty(Of(before, lang)), layer[lang])) else Of(before, lang)
  }

  method BuildLocales(framework: Layer, layers: seq<Layer>) returns (locales: Layer)
    ensures forall lang :: Of(locales, lang) == Layered(framework, layers, lang)
  {
    locales := framework;
    for i := 0 to |layers|
      invariant forall lang :: Of(locales, lang) == Layered(framework, layers[..i], lang)
    {
      var layer := layers[i];
      ghost var before := locales;
      var pending := layer.Keys;
      while pending != {}
        invariant pending <= layer.Keys
        invariant forall lang :: Of(locales, lang) == Overlaid(before, layer, pending, lang)
      {
        var lang :| lang in pending;
        assert Of(locales, lang) == Overlaid(before, layer, pending, lang) == Of(before, lang);
        ghost var todo := pending;
        pending := pending - {lang};
        assert forall l | l != lang :: Overlaid(before, layer, pending, l) == Overlaid(before, layer, todo, l);
        if lang !in locales { locales := locales[lang := EMPTY]; }
        var merged := MergeLocale(locales[lang], layer[lang]);
        locales := locales[lang := merged];
      }
      assert layers[..i + 1][..i] == layers[..i];
    }
    assert layers[..|layers|] == layers;
  }

  predicate LayerTouches(layer: Layer, lang: string, p: Path) {
    lang in layer && !Untouched(layer[lang], p)
  }

  /** Later layers win: a leaf of layer `i` that no later layer touches is what the app serves. */
  lemma {:induction false} LastLayerWins(framework: Layer, layers: seq<Layer>, lang: string, p: Path, i: nat)
    requires i < |layers| && lang in layers[i] && At(layers[i][lang], p).Some? && At(layers[i][lang], p).value.Leaf?
    requires forall j | i < j < |layers| :: !LayerTouches(layers[j], lang, p)
    ensures Layered(framework, layers, lang).Some?
            && At(Layered(framework, layers, lang).value, p) == At(layers[i][lang], p)
    decreases |layers|
  {
    var n := |layers| - 1;
    var below := Layered(framework, layers[..n], lang);
    if i == n {
      OverlayWins(OrEmpty(below), layers[n][lang], p);
    } else {
      LastLayerWins(framework, layers[..n], lang, p, i);
      if lang in layers[n] {
        assert !LayerTouches(layers[n], lang, p);
        OverlayWins(OrEmpty(below), layers[n][lang], p);
      }
    }
  }

  /** A framework translation no layer touches is still there. */
  lemma {:induction false} FrameworkSurvives(framework: Layer, layers: seq<Layer>, lang: string, p: Path)
    requires lang in framework && forall j | 0 <= j < |layers| :: !LayerTouches(layers[j], lang, p)
    ensures Layered(framework, layers, lang).Some?
            && At(Layered(framework, layers, lang).value, p) == At(framework[lang], p)
    decreases |layers|
  {
    if layers != [] {
      var n := |layers| - 1;
      FrameworkSurvives(framework, layers[..n], lang, p);
      if lang in layers[n] {
        assert !LayerTouches(layers[n], lang, p);
        OverlayWins(Layered(framework, layers[..n], lang).value, layers[n][lang], p);
      }
    }
  }

  // ----- per-key fallback

  function Resolved(locales: Layer, defaultLang: string): Layer {
    map lang | lang in locales ::
      if lang == defaultLang then locales[lang] else Merge(OrEmpty(Of(locales, defaultLang)), locales[lang])
  }

  /** Each other language over a copy of the default, in any order. */
  method ResolveLocales(locales: Layer, defaultLang: string) returns (resolved: Layer)
    ensures resolved == Resolved(locales, defaultLang)
  {
    var fallback := OrEmpty(Of(locales, defaultLang));
    resolved := locales;
    var pending := locales.Keys;
    while pending != {}
      invariant pending <= locales.Keys && resolved.Keys == locales.Keys
      invariant forall lang | lang in locales ::
        resolved[lang] == if lang in pending then locales[lang] else Resolved(locales, defaultLang)[lang]
    {
      var lang :| lang in pending;
      pending := pending - {lang};
      if lang != defaultLang {
        var merged := MergeLocale(fallback, resolved[lang]);
        resolved := resolved[lang := merged];
      }
    }
  }

  /** The default language is served as it is; every other keeps its own leaves and shows the default's
      value at every path it does not touch. */
  lemma FallbackPerKey(locales: Layer, defaultLang: string, lang: string, p: Path)
    requires lang in locales && defaultLang in locales
    ensures Resolved(locales, defaultLang)[defaultLang] == locales[defaultLang]
    ensures Untouched(locales[lang], p) ==> At(Resolved(locales, defaultLang)[lang], p) == At(locales[defaultLang], p)
    ensures At(locales[lang], p).Some? && At(locales[lang], p).value.Leaf? ==>
              At(Resolved(locales, defaultLang)[lang], p) == At(locales[lang], p)
  {
    OverlayWins(locales[defaultLang], locales[lang], p);
  }

  /** Resolving a resolved set changes nothing. */
  lemma ResolveTwice(locales: Layer, defaultLang: string)
    ensures Resolved(Resolved(locales, defaultLang), defaultLang) == Resolved(locales, defaultLang)
  {
    var fallback := OrEmpty(Of(locales, defaultLang));
    assert OrEmpty(Of(Resolved(locales, defaultLang), defaultLang)) == fallback;
    forall lang | lang in locales
      ensures Resolved(Resolved(locales, defaultLang), defaultLang)[lang] == Resolved(locales, defaultLang)[lang]
    {
      FillTwice(fallback, locales[lang]);
    }
  }

  /** Without a default language, every object locale stays as it is. */
  lemma NoDefaultNoChange(locales: Layer, defaultLang: string)
    requires defaultLang !in locales
    ensures Resolved(locales, defaultLang) == locales
  {
    forall lang | lang in locales ensures Merge(EMPTY, locales[lang]) == locales[lang] {
      if locales[lang].Obj? {
        assert Merge(EMPTY, locales[lang]).fields == locales[lang].fields;
      }
    }
  }

  /** From files to page: a leaf of the language's topmost layer that has it is served; a path the
      language never touches is served from the default language's topmost layer. */
  lemma ServedText(framework: Layer, layers: seq<Layer>, locales: Layer, defaultLang: string, lang: string, p: Path,
      i: nat)
    requires forall l :: Of(locales, l) == Layered(framework, layers, l)
    requires lang in locales && lang != defaultLang && Untouched(locales[lang], p)
    requires i < |layers| && defaultLang in layers[i]
    requires At(layers[i][defaultLang], p).Some? && At(layers[i][defaultLang], p).value.Leaf?
    requires forall j | i < j < |layers| :: !LayerTouches(layers[j], defaultLang, p)
    ensures At(Resolved(locales, defaultLang)[lang], p) == At(layers[i][defaultLang], p)
  {
    LastLayerWins(framework, layers, defaultLang, p, i);
    assert Of(locales, defaultLang) == Layered(framework, layers, defaultLang);
    FallbackPerKey(locales, defaultLang, lang, p);
  }
}
