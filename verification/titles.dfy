/** Filling in the URL and page title of checklist items: URL extraction and page fetch are oracles;
  * the cache lookup, normalisation, self-healing of stored titles and the URL fallback are modelled. */
module Titles {
  import opened Wrappers
  import opened Model
  import Strs
  import TitleCache

  type Cache = TitleCache.Cache

  /** The observable calls made on the cache and the page fetcher, in order. */
  datatype Op = CacheGet(url: string) | CachePut(url: string, title: string) | FetchTitle(url: string) | CacheSave

  /** The three revisions of the resolution step:
    * `hitOnKey` — a hit is any stored key (a plain dict) rather than a truthy stored title;
    * `squeezeSpaces` — a fetched title also has runs of spaces collapsed;
    * `reloadOnHit` — the stored title is read a second time on a hit;
    * `catchesFetch` — an exception from the page fetch is caught and the URL stands as the title,
    *   rather than leaving the walk. */
  datatype Policy = Policy(hitOnKey: bool, squeezeSpaces: bool, reloadOnHit: bool, catchesFetch: bool)

  /** The title service (trello/service.py). */
  const ServicePolicy := Policy(false, true, false, false)
  /** `TrelloChecklist.get_url_titles` with an explicit cache (trello/model.py). */
  const ModelPolicy := Policy(false, false, true, false)
  /** The standalone script, with a module-level dict as cache (trello-backup.py). */
  const LegacyPolicy := Policy(true, false, false, true)

  /** URL extraction from item text, and page-title fetch. The package's fetcher returns the URL
    * itself when the connection fails or the page has no title, so None stands for an exception
    * (any other request error, or a title that is not text). */
  datatype Env = Env(policy: Policy, extract: string -> Option<string>, fetch: string -> Option<string>)

  /** `re.sub(r'[\n\t\r]+', ' ', s)`. */
  function ControlToSpace(s: string): (r: string)
    ensures Strs.NoneInClass(r, Strs.ControlWhitespace)
    ensures Strs.NoneInClass(s, Strs.ControlWhitespace) ==> r == s
    ensures s != "" ==> r != ""
  {
    Strs.CollapseRemovesClass(s, Strs.ControlWhitespace, ' ', false);
    Strs.CollapseKeeps(s, Strs.ControlWhitespace, ' ');
    Strs.Collapse(s, Strs.ControlWhitespace, ' ')
  }

  /** `re.sub(r' {2,}', ' ', s)`. */
  function SqueezeSpaces(s: string): (r: string)
    ensures Strs.NoDoubleSpace(r)
    ensures Strs.NoDoubleSpace(s) ==> r == s
    ensures Strs.NoneInClass(s, Strs.ControlWhitespace) ==> Strs.NoneInClass(r, Strs.ControlWhitespace)
  {
    Strs.SpacesKept(s);
    Strs.CollapseSpacesNoDouble(s, false);
    SqueezeKeepsNoControl(s);
    Strs.Collapse(s, Strs.Space, ' ')
  }

  /** Each maximal run of line breaks and tabs becomes one space; the text around it is kept. */
  lemma ControlToSpaceRun(a: string, run: string, b: string)
    requires |run| > 0 && Strs.AllInClass(run, Strs.ControlWhitespace)
    requires |a| == 0 || !Strs.InClass(a[|a| - 1], Strs.ControlWhitespace)
    requires |b| == 0 || !Strs.InClass(b[0], Strs.ControlWhitespace)
    ensures ControlToSpace(a + run + b) == ControlToSpace(a) + " " + ControlToSpace(b)
  {
    Strs.CollapseRun(a, run, b, Strs.ControlWhitespace, ' ');
  }

  /** Each maximal run of spaces becomes one space; the text around it is kept. */
  lemma SqueezeSpacesRun(a: string, run: string, b: string)
    requires |run| > 0 && Strs.AllInClass(run, Strs.Space)
    requires |a| == 0 || a[|a| - 1] != ' '
    requires |b| == 0 || b[0] != ' '
    ensures SqueezeSpaces(a + run + b) == SqueezeSpaces(a) + " " + SqueezeSpaces(b)
  {
    Strs.CollapseRun(a, run, b, Strs.Space, ' ');
  }

  lemma SqueezeKeepsNoControl(s: string)
    ensures Strs.NoneInClass(s, Strs.ControlWhitespace) ==> Strs.NoneInClass(Strs.Collapse(s, Strs.Space, ' '), Strs.ControlWhitespace)
  {
    var r := Strs.Collapse(s, Strs.Space, ' ');
    Strs.CollapseChars(s, Strs.Space, ' ', false);
    if Strs.NoneInClass(s, Strs.ControlWhitespace) {
      forall i | 0 <= i < |r| ensures !Strs.InClass(r[i], Strs.ControlWhitespace) {
        assert r[i] in r;
        if r[i] != ' ' {
          var j :| 0 <= j < |s| && s[j] == r[i];
        }
      }
    }
  }

  /** The fetch of `u` leaves the resolution with an exception: the fetcher raised and nothing catches it. */
  predicate RaisesOn(env: Env, u: string) {
    !env.policy.catchesFetch && env.fetch(u).None?
  }

  /** The title made of a fetched page title, or None when the fetch raised. */
  function Normalised(p: Policy, fetched: Option<string>): (r: Option<string>)
    ensures r.Some? <==> fetched.Some?
    ensures r.Some? ==> Strs.NoneInClass(r.value, Strs.ControlWhitespace)
    ensures r.Some? && p.squeezeSpaces ==> Strs.NoDoubleSpace(r.value)
    ensures (fetched.Some? && Strs.NoneInClass(fetched.value, Strs.ControlWhitespace)
      && (p.squeezeSpaces ==> Strs.NoDoubleSpace(fetched.value))) ==> r == fetched
  {
    match fetched
    case None => None
    case Some(t) =>
      var t1 := ControlToSpace(t);
      Some(if p.squeezeSpaces then SqueezeSpaces(t1) else t1)
  }

  predicate IsHit(p: Policy, c: Cache, url: string) {
    if p.hitOnKey then url in c.data else Truthy(TitleCache.Get(c, url))
  }

  /** The outcome of resolving one URL; when `raised`, the fetch raised and the title is meaningless. */
  datatype Resolution = Resolution(title: string, cache: Cache, ops: seq<Op>, raised: bool)

  /** The title for one extracted URL, with the cache after it; a raising fetch leaves the cache as it was. */
  function Resolve(env: Env, c: Cache, url: string): (r: Resolution)
    requires url != ""
    ensures r.title != ""
    ensures forall u :: u != url ==> TitleCache.Get(r.cache, u) == TitleCache.Get(c, u)
    ensures r.raised <==> !IsHit(env.policy, c, url) && RaisesOn(env, url)
    ensures r.raised ==> r.cache == c
  {
    var p := env.policy;
    var lookup := if p.hitOnKey then [] else [CacheGet(url)];
    if IsHit(p, c, url) then
      var stored := c.data[url];
      var cleaned := ControlToSpace(stored);
      var reload := if p.reloadOnHit then [CacheGet(url)] else [];
      if cleaned != stored then
        Resolution(if cleaned == "" then url else cleaned, TitleCache.Put(c, url, cleaned), lookup + reload + [CachePut(url, cleaned)], false)
      else
        Resolution(if cleaned == "" then url else cleaned, c, lookup + reload, false)
    else if RaisesOn(env, url) then
      Resolution(url, c, lookup + [FetchTitle(url)], true)
    else
      var t := Normalised(p, env.fetch(url));
      if Truthy(t) then
        Resolution(t.value, TitleCache.Put(c, url, t.value), lookup + [FetchTitle(url), CachePut(url, t.value)], false)
      else
        Resolution(url, c, lookup + [FetchTitle(url)], false)
  }

  /** Resolving `url` against `c` yields title `t`, raises nothing and leaves the cache as it is. */
  ghost predicate Fixed(env: Env, c: Cache, url: string, t: string) {
    url != "" && !Resolve(env, c, url).raised && Resolve(env, c, url).title == t && Resolve(env, c, url).cache == c
  }

  /** Every settled entry of `a` is still settled, with the same title, in `b`. */
  ghost predicate Grows(env: Env, a: Cache, b: Cache) {
    forall u, t :: Fixed(env, a, u, t) ==> Fixed(env, b, u, t)
  }

  lemma GrowsRefl(env: Env, a: Cache)
    ensures Grows(env, a, a)
  {
  }

  lemma GrowsTrans(env: Env, a: Cache, b: Cache, c: Cache)
    requires Grows(env, a, b) && Grows(env, b, c)
    ensures Grows(env, a, c)
  {
  }

  /** A resolution that writes the cache changes it. */
  lemma ResolveWritesChange(env: Env, c: Cache, url: string)
    requires url != ""
    ensures Resolve(env, c, url).cache == c ==> NoWrites(Resolve(env, c, url).ops)
  {
    var p := env.policy;
    var r := Resolve(env, c, url);
    if IsHit(p, c, url) {
      var stored := c.data[url];
      if ControlToSpace(stored) != stored {
        assert r.cache.data[url] != c.data[url];
      }
    } else if !RaisesOn(env, url) {
      var t := Normalised(p, env.fetch(url));
      if Truthy(t) {
        assert url in r.cache.data && r.cache.data[url] == t.value;
        assert url !in c.data || c.data[url] != t.value;
      }
    }
  }

  /** Resolution looks at the cache entry for its own URL only. */
  lemma ResolveLocal(env: Env, a: Cache, b: Cache, url: string)
    requires url != ""
    requires TitleCache.Get(a, url) == TitleCache.Get(b, url)
    ensures Resolve(env, b, url).title == Resolve(env, a, url).title
    ensures Resolve(env, b, url).raised == Resolve(env, a, url).raised
    ensures Resolve(env, a, url).cache == a ==> Resolve(env, b, url).cache == b
  {
    assert IsHit(env.policy, a, url) <==> IsHit(env.policy, b, url);
    ResolveWritesChange(env, a, url);
  }

  /** Resolving a URL without an exception leaves it settled: a second resolution gives the same
    * title and no change. */
  lemma ResolveSettles(env: Env, c: Cache, url: string)
    requires url != ""
    ensures !Resolve(env, c, url).raised ==> Fixed(env, Resolve(env, c, url).cache, url, Resolve(env, c, url).title)
  {
    var p := env.policy;
    var r := Resolve(env, c, url);
    if IsHit(p, c, url) {
      var cleaned := ControlToSpace(c.data[url]);
      Strs.CollapseIdentity(cleaned, Strs.ControlWhitespace, ' ', false);
      if cleaned != c.data[url] {
        assert TitleCache.Get(r.cache, url) == Some(cleaned);
        assert r.cache.data[url] == cleaned;
      }
      assert IsHit(p, r.cache, url);
    } else if !RaisesOn(env, url) {
      var t := Normalised(p, env.fetch(url));
      if Truthy(t) {
        Strs.CollapseIdentity(t.value, Strs.ControlWhitespace, ' ', false);
        assert r.cache.data[url] == t.value;
        assert IsHit(p, r.cache, url);
      }
    }
  }

  /** Resolving one URL keeps every settled entry settled. */
  lemma ResolveGrows(env: Env, c: Cache, url: string)
    requires url != ""
    ensures Grows(env, c, Resolve(env, c, url).cache)
  {
    var c2 := Resolve(env, c, url).cache;
    forall u, t | Fixed(env, c, u, t) ensures Fixed(env, c2, u, t) {
      if u != url {
        ResolveLocal(env, c, c2, u);
      }
    }
  }

  /** The calls of a pass that writes nothing to the cache. */
  predicate NoWrites(ops: seq<Op>) {
    forall i :: 0 <= i < |ops| ==> !ops[i].CachePut?
  }

  lemma NoWritesConcat(a: seq<Op>, b: seq<Op>)
    requires NoWrites(a) && NoWrites(b)
    ensures NoWrites(a + b)
  {
    forall i | |a| <= i < |a + b| ensures !(a + b)[i].CachePut? {
      assert (a + b)[i] == b[i - |a|];
    }
  }

  /** On a miss the page is fetched, and the fetch is the last call when it raises, with the cache
    * untouched. Otherwise the normalised title is cached exactly when it is non-empty, a cached title
    * carries no control whitespace (nor, for the service, doubled spaces), and an uncached miss
    * falls back to the URL. */
  lemma MissCachesNonEmpty(env: Env, c: Cache, url: string)
    requires url != "" && !IsHit(env.policy, c, url)
    ensures var r := Resolve(env, c, url);
      FetchTitle(url) in r.ops
      && (r.raised <==> RaisesOn(env, url))
      && (r.raised ==> r.cache == c && r.ops[|r.ops| - 1] == FetchTitle(url))
      && (!r.raised ==> (r.cache != c <==> Truthy(Normalised(env.policy, env.fetch(url)))))
      && (!r.raised && r.cache != c ==>
            TitleCache.Get(r.cache, url) == Some(r.title)
            && Strs.NoneInClass(r.title, Strs.ControlWhitespace)
            && (env.policy.squeezeSpaces ==> Strs.NoDoubleSpace(r.title)))
      && (!r.raised && r.cache == c ==> r.title == url)
  {
    var r := Resolve(env, c, url);
    var t := Normalised(env.policy, env.fetch(url));
    if !RaisesOn(env, url) && Truthy(t) {
      assert url !in c.data || c.data[url] != t.value;
      assert r.cache.data[url] == t.value;
    }
  }

  /** On a hit nothing is fetched; the stored title is rewritten exactly when normalising it changes it. */
  lemma HitRewritesIffChanged(env: Env, c: Cache, url: string)
    requires url != "" && IsHit(env.policy, c, url)
    ensures var r := Resolve(env, c, url);
      var stored := c.data[url];
      FetchTitle(url) !in r.ops
      && (!NoWrites(r.ops) <==> ControlToSpace(stored) != stored)
      && r.title == (if stored == "" then url else ControlToSpace(stored))
  {
    var r := Resolve(env, c, url);
    var stored := c.data[url];
    if ControlToSpace(stored) != stored {
      assert r.ops[|r.ops| - 1].CachePut?;
    }
  }

  /** In the standalone script a failing fetch leaves the cache alone and the URL stands as its title. */
  lemma LegacyFetchFailureFallsBack(env: Env, c: Cache, url: string)
    requires env.policy == LegacyPolicy && url != "" && url !in c.data && env.fetch(url).None?
    ensures Resolve(env, c, url) == Resolution(url, c, [FetchTitle(url)], false)
  {
  }

  /** In the package (the service and `TrelloChecklist.get_url_titles`) nothing catches a failing fetch
    * on a miss: the resolution raises right after the fetch, with the cache untouched. */
  lemma PackageFetchFailureRaises(env: Env, c: Cache, url: string)
    requires env.policy == ServicePolicy || env.policy == ModelPolicy
    requires url != "" && !Truthy(TitleCache.Get(c, url)) && env.fetch(url).None?
    ensures Resolve(env, c, url) == Resolution(url, c, [CacheGet(url), FetchTitle(url)], true)
  {
  }

  /** A fetched title with a newline and a tab between spaces comes out with single spaces. */
  lemma NormaliseExample()
    ensures Normalised(ServicePolicy, Some("A \n\t B")) == Some("A B")
  {
    ControlToSpaceExample();
    SqueezeSpacesExample();
  }

  /** Normalising a normalised title changes nothing. */
  lemma NormalisedIdempotent(p: Policy, fetched: Option<string>)
    ensures Normalised(p, Normalised(p, fetched)) == Normalised(p, fetched)
  {
  }

  /** Each control whitespace character becomes one space. */
  lemma ControlToSpaceExample()
    ensures ControlToSpace("A \n\t B") == "A   B"
  {
    var cc := Strs.ControlWhitespace;
    assert Strs.CollapseFrom("B", cc, ' ', false) == "B";
    assert Strs.CollapseFrom(" B", cc, ' ', true) == " B";
    assert Strs.CollapseFrom("\t B", cc, ' ', true) == " B";
    assert Strs.CollapseFrom("\n\t B", cc, ' ', false) == "  B";
    assert Strs.CollapseFrom(" \n\t B", cc, ' ', false) == "   B";
  }

  /** A run of spaces becomes one space. */
  lemma SqueezeSpacesExample()
    ensures SqueezeSpaces("A   B") == "A B"
  {
    var sp := Strs.Space;
    assert Strs.CollapseFrom("B", sp, ' ', true) == "B";
    assert Strs.CollapseFrom(" B", sp, ' ', true) == "B";
    assert Strs.CollapseFrom("  B", sp, ' ', true) == "B";
    assert Strs.CollapseFrom("   B", sp, ' ', false) == " B";
  }

  /** A clean cached title is used as it is: one lookup, no fetch, no write. */
  lemma CleanHitExample(env: Env)
    requires env.policy == ServicePolicy
    ensures Resolve(env, TitleCache.Cache(map["u" := "T"]), "u") == Resolution("T", TitleCache.Cache(map["u" := "T"]), [CacheGet("u")], false)
  {
    assert ControlToSpace("T") == "T";
  }

  // ---------------------------------------------------------------------------------------------
  // The walk over a board.

  /** The result of a walk. When `raised`, a fetch raised part-way: the walk stopped right after it, and
    * the rest of the value is as it was. */
  datatype Walked<T> = Walked(value: T, cache: Cache, ops: seq<Op>, raised: bool)

  /** The URL the oracle finds in an item's text, when it finds a non-empty one. */
  function UrlOf(env: Env, item: ChecklistItem): Option<string> {
    var u := env.extract(item.value);
    if Truthy(u) then u else None
  }

  /** An item already carries the URL of its text and that URL's settled title. */
  ghost predicate SettledItem(env: Env, item: ChecklistItem, c: Cache) {
    match UrlOf(env, item)
    case None => true
    case Some(u) => item.url == Some(u) && item.urlTitle.Some? && Fixed(env, c, u, item.urlTitle.value)
  }

  /** Enrichment touches nothing but the URL fields. */
  function StripItem(item: ChecklistItem): ChecklistItem {
    item.(url := None, urlTitle := None)
  }

  /** Item sequences equal but for the URL fields. */
  predicate ItemsAlike(a: seq<ChecklistItem>, b: seq<ChecklistItem>) {
    |a| == |b| && forall i :: 0 <= i < |a| ==> StripItem(a[i]) == StripItem(b[i])
  }

  /** Checklists equal but for the URL fields of their items; likewise for cards and lists below. */
  predicate ChecklistAlike(a: Checklist, b: Checklist) {
    a.(items := b.items) == b && ItemsAlike(a.items, b.items)
  }

  predicate ChecklistsAlike(a: seq<Checklist>, b: seq<Checklist>) {
    |a| == |b| && forall i :: 0 <= i < |a| ==> ChecklistAlike(a[i], b[i])
  }

  predicate CardAlike(a: Card, b: Card) {
    a.(checklists := b.checklists) == b && ChecklistsAlike(a.checklists, b.checklists)
  }

  predicate CardsAlike(a: seq<Card>, b: seq<Card>) {
    |a| == |b| && forall i :: 0 <= i < |a| ==> CardAlike(a[i], b[i])
  }

  predicate ListAlike(a: TrelloList, b: TrelloList) {
    a.(cards := b.cards) == b && CardsAlike(a.cards, b.cards)
  }

  predicate ListsAlike(a: seq<TrelloList>, b: seq<TrelloList>) {
    |a| == |b| && forall i :: 0 <= i < |a| ==> ListAlike(a[i], b[i])
  }

  /** One item: untouched, with no cache access, when no URL is found; otherwise given the URL and its
    * title, unless the fetch for that URL raises, which leaves the item as it was. */
  function ProcessItem(env: Env, item: ChecklistItem, c: Cache): (r: Walked<ChecklistItem>)
    ensures StripItem(r.value) == StripItem(item)
    ensures UrlOf(env, item).None? ==> r == Walked(item, c, [], false)
    ensures r.raised <==> UrlOf(env, item).Some? && !IsHit(env.policy, c, UrlOf(env, item).value) && RaisesOn(env, UrlOf(env, item).value)
    ensures r.raised ==> r.value == item && r.cache == c
    ensures UrlOf(env, item).Some? && !r.raised ==> r.value.url == UrlOf(env, item) && Truthy(r.value.urlTitle)
    ensures UrlPaired(item) ==> UrlPaired(r.value)
  {
    match UrlOf(env, item)
    case None => Walked(item, c, [], false)
    case Some(u) =>
      var res := Resolve(env, c, u);
      if res.raised then Walked(item, c, res.ops, true)
      else Walked(item.(url := Some(u), urlTitle := Some(res.title)), res.cache, res.ops, false)
  }

  lemma SettledItemMono(env: Env, item: ChecklistItem, a: Cache, b: Cache)
    requires SettledItem(env, item, a) && Grows(env, a, b)
    ensures SettledItem(env, item, b)
  {
  }

  /** Processing an item keeps settled entries settled and, unless it raises, settles the item; a
    * settled item raises nothing and is left as it is. */
  lemma ProcessItemSettles(env: Env, item: ChecklistItem, c: Cache)
    ensures var r := ProcessItem(env, item, c);
      Grows(env, c, r.cache) && (!r.raised ==> SettledItem(env, r.value, r.cache))
      && (SettledItem(env, item, c) ==> r.value == item && r.cache == c && NoWrites(r.ops) && !r.raised)
  {
    match UrlOf(env, item)
    case None =>
    case Some(u) =>
      ResolveGrows(env, c, u);
      ResolveSettles(env, c, u);
      ResolveWritesChange(env, c, u);
  }

  ghost predicate SettledItems(env: Env, items: seq<ChecklistItem>, c: Cache) {
    forall i :: 0 <= i < |items| ==> SettledItem(env, items[i], c)
  }

  function ProcessItems(env: Env, items: seq<ChecklistItem>, c: Cache): (r: Walked<seq<ChecklistItem>>)
    ensures |r.value| == |items|
    ensures forall i :: 0 <= i < |items| ==> StripItem(r.value[i]) == StripItem(items[i])
  {
    if |items| == 0 then Walked([], c, [], false)
    else
      var first := ProcessItem(env, items[0], c);
      if first.raised then Walked([first.value] + items[1..], first.cache, first.ops, true)
      else
        var rest := ProcessItems(env, items[1..], first.cache);
        Walked([first.value] + rest.value, rest.cache, first.ops + rest.ops, rest.raised)
  }

  lemma SettledItemsMono(env: Env, items: seq<ChecklistItem>, a: Cache, b: Cache)
    requires SettledItems(env, items, a) && Grows(env, a, b)
    ensures SettledItems(env, items, b)
  {
    forall i | 0 <= i < |items| ensures SettledItem(env, items[i], b) {
      SettledItemMono(env, items[i], a, b);
    }
  }

  lemma {:induction false} ProcessItemsSettles(env: Env, items: seq<ChecklistItem>, c: Cache)
    ensures var r := ProcessItems(env, items, c);
      Grows(env, c, r.cache) && (!r.raised ==> SettledItems(env, r.value, r.cache))
      && (SettledItems(env, items, c) ==> r.value == items && r.cache == c && NoWrites(r.ops) && !r.raised)
    decreases |items|
  {
    if |items| > 0 {
      var first := ProcessItem(env, items[0], c);
      ProcessItemSettles(env, items[0], c);
      if !first.raised {
        var rest := ProcessItems(env, items[1..], first.cache);
        ProcessItemsSettles(env, items[1..], first.cache);
        GrowsTrans(env, c, first.cache, rest.cache);
        SettledItemMono(env, first.value, first.cache, rest.cache);
        var r := ProcessItems(env, items, c);
        assert r.value == [first.value] + rest.value;
        if !r.raised {
          forall i | 0 <= i < |r.value| ensures SettledItem(env, r.value[i], r.cache) {
            if i > 0 {
              assert r.value[i] == rest.value[i - 1];
            }
          }
        }
        if SettledItems(env, items, c) {
          assert SettledItems(env, items[1..], first.cache) by {
            SettledItemsMono(env, items[1..], c, first.cache);
          }
          assert [items[0]] + items[1..] == items;
        }
      }
    } else {
      GrowsRefl(env, c);
    }
  }

  function ProcessChecklist(env: Env, cl: Checklist, c: Cache): (r: Walked<Checklist>)
    ensures ChecklistAlike(cl, r.value)
  {
    var w := ProcessItems(env, cl.items, c);
    Walked(cl.(items := w.value), w.cache, w.ops, w.raised)
  }

  ghost predicate SettledChecklists(env: Env, cls: seq<Checklist>, c: Cache) {
    forall i :: 0 <= i < |cls| ==> SettledItems(env, cls[i].items, c)
  }

  function ProcessChecklists(env: Env, cls: seq<Checklist>, c: Cache): (r: Walked<seq<Checklist>>)
    ensures ChecklistsAlike(cls, r.value)
  {
    if |cls| == 0 then Walked([], c, [], false)
    else
      var first := ProcessChecklist(env, cls[0], c);
      if first.raised then Walked([first.value] + cls[1..], first.cache, first.ops, true)
      else
        var rest := ProcessChecklists(env, cls[1..], first.cache);
        Walked([first.value] + rest.value, rest.cache, first.ops + rest.ops, rest.raised)
  }

  lemma SettledChecklistsMono(env: Env, cls: seq<Checklist>, a: Cache, b: Cache)
    requires SettledChecklists(env, cls, a) && Grows(env, a, b)
    ensures SettledChecklists(env, cls, b)
  {
    forall i | 0 <= i < |cls| ensures SettledItems(env, cls[i].items, b) {
      SettledItemsMono(env, cls[i].items, a, b);
    }
  }

  lemma {:induction false} ProcessChecklistsSettles(env: Env, cls: seq<Checklist>, c: Cache)
    ensures var r := ProcessChecklists(env, cls, c);
      Grows(env, c, r.cache) && (!r.raised ==> SettledChecklists(env, r.value, r.cache))
      && (SettledChecklists(env, cls, c) ==> r.value == cls && r.cache == c && NoWrites(r.ops) && !r.raised)
    decreases |cls|
  {
    if |cls| > 0 {
      var first := ProcessChecklist(env, cls[0], c);
      ProcessItemsSettles(env, cls[0].items, c);
      if SettledChecklists(env, cls, c) {
        SettledChecklistsSplit(env, cls, c);
      }
      if !first.raised {
        var rest := ProcessChecklists(env, cls[1..], first.cache);
        var r := ProcessChecklists(env, cls, c);
        assert r == Walked([first.value] + rest.value, rest.cache, first.ops + rest.ops, rest.raised);
        ProcessChecklistsSettles(env, cls[1..], first.cache);
        GrowsTrans(env, c, first.cache, rest.cache);
        if !r.raised {
          SettledItemsMono(env, first.value.items, first.cache, rest.cache);
          SettledChecklistsCons(env, first.value, rest.value, rest.cache);
        }
        if SettledChecklists(env, cls, c) {
          NoWritesConcat(first.ops, rest.ops);
          assert [cls[0]] + cls[1..] == cls;
        }
      }
    } else {
      GrowsRefl(env, c);
    }
  }

  lemma SettledChecklistsCons(env: Env, x: Checklist, xs: seq<Checklist>, c: Cache)
    requires SettledItems(env, x.items, c) && SettledChecklists(env, xs, c)
    ensures SettledChecklists(env, [x] + xs, c)
  {
    forall i | 0 <= i < |[x] + xs| ensures SettledItems(env, ([x] + xs)[i].items, c) {
      if i > 0 {
        assert ([x] + xs)[i] == xs[i - 1];
      }
    }
  }

  lemma SettledChecklistsSplit(env: Env, xs: seq<Checklist>, c: Cache)
    requires |xs| > 0 && SettledChecklists(env, xs, c)
    ensures SettledItems(env, xs[0].items, c) && SettledChecklists(env, xs[1..], c)
  {
    forall i | 0 <= i < |xs[1..]| ensures SettledItems(env, xs[1..][i].items, c) {
      assert xs[1..][i] == xs[i + 1];
    }
  }


  function ProcessCard(env: Env, card: Card, c: Cache): (r: Walked<Card>)
    ensures CardAlike(card, r.value)
  {
    var w := ProcessChecklists(env, card.checklists, c);
    Walked(card.(checklists := w.value), w.cache, w.ops, w.raised)
  }

  ghost predicate SettledCards(env: Env, cards: seq<Card>, c: Cache) {
    forall i :: 0 <= i < |cards| ==> SettledChecklists(env, cards[i].checklists, c)
  }

  function ProcessCards(env: Env, cards: seq<Card>, c: Cache): (r: Walked<seq<Card>>)
    ensures CardsAlike(cards, r.value)
  {
    if |cards| == 0 then Walked([], c, [], false)
    else
      var first := ProcessCard(env, cards[0], c);
      if first.raised then Walked([first.value] + cards[1..], first.cache, first.ops, true)
      else
        var rest := ProcessCards(env, cards[1..], first.cache);
        Walked([first.value] + rest.value, rest.cache, first.ops + rest.ops, rest.raised)
  }

  lemma SettledCardsMono(env: Env, cards: seq<Card>, a: Cache, b: Cache)
    requires SettledCards(env, cards, a) && Grows(env, a, b)
    ensures SettledCards(env, cards, b)
  {
    forall i | 0 <= i < |cards| ensures SettledChecklists(env, cards[i].checklists, b) {
      SettledChecklistsMono(env, cards[i].checklists, a, b);
    }
  }

  lemma {:induction false} ProcessCardsSettles(env: Env, cards: seq<Card>, c: Cache)
    ensures var r := ProcessCards(env, cards, c);
      Grows(env, c, r.cache) && (!r.raised ==> SettledCards(env, r.value, r.cache))
      && (SettledCards(env, cards, c) ==> r.value == cards && r.cache == c && NoWrites(r.ops) && !r.raised)
    decreases |cards|
  {
    if |cards| > 0 {
      var first := ProcessCard(env, cards[0], c);
      ProcessChecklistsSettles(env, cards[0].checklists, c);
      if SettledCards(env, cards, c) {
        SettledCardsSplit(env, cards, c);
      }
      if !first.raised {
        var rest := ProcessCards(env, cards[1..], first.cache);
        var r := ProcessCards(env, cards, c);
        assert r == Walked([first.value] + rest.value, rest.cache, first.ops + rest.ops, rest.raised);
        ProcessCardsSettles(env, cards[1..], first.cache);
        GrowsTrans(env, c, first.cache, rest.cache);
        if !r.raised {
          SettledChecklistsMono(env, first.value.checklists, first.cache, rest.cache);
          SettledCardsCons(env, first.value, rest.value, rest.cache);
        }
        if SettledCards(env, cards, c) {
          NoWritesConcat(first.ops, rest.ops);
          assert [cards[0]] + cards[1..] == cards;
        }
      }
    } else {
      GrowsRefl(env, c);
    }
  }

  lemma SettledCardsCons(env: Env, x: Card, xs: seq<Card>, c: Cache)
    requires SettledChecklists(env, x.checklists, c) && SettledCards(env, xs, c)
    ensures SettledCards(env, [x] + xs, c)
  {
    forall i | 0 <= i < |[x] + xs| ensures SettledChecklists(env, ([x] + xs)[i].checklists, c) {
      if i > 0 {
        assert ([x] + xs)[i] == xs[i - 1];
      }
    }
  }

  lemma SettledCardsSplit(env: Env, xs: seq<Card>, c: Cache)
    requires |xs| > 0 && SettledCards(env, xs, c)
    ensures SettledChecklists(env, xs[0].checklists, c) && SettledCards(env, xs[1..], c)
  {
    forall i | 0 <= i < |xs[1..]| ensures SettledChecklists(env, xs[1..][i].checklists, c) {
      assert xs[1..][i] == xs[i + 1];
    }
  }


  function ProcessList(env: Env, l: TrelloList, c: Cache): (r: Walked<TrelloList>)
    ensures ListAlike(l, r.value)
  {
    var w := ProcessCards(env, l.cards, c);
    Walked(l.(cards := w.value), w.cache, w.ops, w.raised)
  }

  ghost predicate SettledLists(env: Env, ls: seq<TrelloList>, c: Cache) {
    forall i :: 0 <= i < |ls| ==> SettledCards(env, ls[i].cards, c)
  }

  function ProcessLists(env: Env, ls: seq<TrelloList>, c: Cache): (r: Walked<seq<TrelloList>>)
    ensures ListsAlike(ls, r.value)
  {
    if |ls| == 0 then Walked([], c, [], false)
    else
      var first := ProcessList(env, ls[0], c);
      if first.raised then Walked([first.value] + ls[1..], first.cache, first.ops, true)
      else
        var rest := ProcessLists(env, ls[1..], first.cache);
        Walked([first.value] + rest.value, rest.cache, first.ops + rest.ops, rest.raised)
  }

  lemma SettledListsMono(env: Env, ls: seq<TrelloList>, a: Cache, b: Cache)
    requires SettledLists(env, ls, a) && Grows(env, a, b)
    ensures SettledLists(env, ls, b)
  {
    forall i | 0 <= i < |ls| ensures SettledCards(env, ls[i].cards, b) {
      SettledCardsMono(env, ls[i].cards, a, b);
    }
  }

  lemma {:induction false} ProcessListsSettles(env: Env, ls: seq<TrelloList>, c: Cache)
    ensures var r := ProcessLists(env, ls, c);
      Grows(env, c, r.cache) && (!r.raised ==> SettledLists(env, r.value, r.cache))
      && (SettledLists(env, ls, c) ==> r.value == ls && r.cache == c && NoWrites(r.ops) && !r.raised)
    decreases |ls|
  {
    if |ls| > 0 {
      var first := ProcessList(env, ls[0], c);
      ProcessCardsSettles(env, ls[0].cards, c);
      if SettledLists(env, ls, c) {
        SettledListsSplit(env, ls, c);
      }
      if !first.raised {
        var rest := ProcessLists(env, ls[1..], first.cache);
        var r := ProcessLists(env, ls, c);
        assert r == Walked([first.value] + rest.value, rest.cache, first.ops + rest.ops, rest.raised);
        ProcessListsSettles(env, ls[1..], first.cache);
        GrowsTrans(env, c, first.cache, rest.cache);
        if !r.raised {
          SettledCardsMono(env, first.value.cards, first.cache, rest.cache);
          SettledListsCons(env, first.value, rest.value, rest.cache);
        }
        if SettledLists(env, ls, c) {
          NoWritesConcat(first.ops, rest.ops);
          assert [ls[0]] + ls[1..] == ls;
        }
      }
    } else {
      GrowsRefl(env, c);
    }
  }

  lemma SettledListsCons(env: Env, x: TrelloList, xs: seq<TrelloList>, c: Cache)
    requires SettledCards(env, x.cards, c) && SettledLists(env, xs, c)
    ensures SettledLists(env, [x] + xs, c)
  {
    forall i | 0 <= i < |[x] + xs| ensures SettledCards(env, ([x] + xs)[i].cards, c) {
      if i > 0 {
        assert ([x] + xs)[i] == xs[i - 1];
      }
    }
  }

  lemma SettledListsSplit(env: Env, xs: seq<TrelloList>, c: Cache)
    requires |xs| > 0 && SettledLists(env, xs, c)
    ensures SettledCards(env, xs[0].cards, c) && SettledLists(env, xs[1..], c)
  {
    forall i | 0 <= i < |xs[1..]| ensures SettledCards(env, xs[1..][i].cards, c) {
      assert xs[1..][i] == xs[i + 1];
    }
  }


  /** Every list, card, checklist and item of the board, in order, until a fetch raises; the board
    * itself is unchanged but for the items. */
  function ProcessBoard(env: Env, b: Board, c: Cache): (r: Walked<Board>)
    ensures r.value.(lists := b.lists) == b
    ensures ListsAlike(b.lists, r.value.lists)
  {
    var w := ProcessLists(env, b.lists, c);
    Walked(b.(lists := w.value), w.cache, w.ops, w.raised)
  }

  /** A second pass over a board enriched without an exception, with the same oracles, raises nothing,
    * changes neither the board nor the cache and writes nothing to it. */
  lemma ProcessBoardIdempotent(env: Env, b: Board, c: Cache)
    ensures var once := ProcessBoard(env, b, c);
      var twice := ProcessBoard(env, once.value, once.cache);
      !once.raised ==> !twice.raised && twice.value == once.value && twice.cache == once.cache && NoWrites(twice.ops)
  {
    var once := ProcessBoard(env, b, c);
    ProcessListsSettles(env, b.lists, c);
    ProcessListsSettles(env, once.value.lists, once.cache);
  }

  /** The service walks the board and then saves the cache, exactly once, after the walk. A fetch that
    * raises ends the walk: it is the last call, and the save is never reached. */
  function ProcessBoardChecklistTitles(env: Env, b: Board, c: Cache): (r: Walked<Board>)
    ensures r.value.(lists := b.lists) == b
    ensures ListsAlike(b.lists, r.value.lists)
    ensures r.raised ==> EndsInRaise(env, r.ops) && CacheSave !in r.ops
    ensures !r.raised ==> NoRaise(env, r.ops) && |r.ops| >= 1 && r.ops[|r.ops| - 1] == CacheSave
    ensures forall i :: 0 <= i < |r.ops| - 1 ==> r.ops[i] != CacheSave
  {
    var w := ProcessBoard(env, b, c);
    WalkCalls(env, b.lists, c);
    if w.raised then w
    else
      RaiseCallsConcat(env, w.ops, [CacheSave]);
      Walked(w.value, w.cache, w.ops + [CacheSave], false)
  }

  /** The calls of a pass that ended in an exception: the last one is a fetch that raised. */
  predicate EndsInRaise(env: Env, ops: seq<Op>) {
    |ops| > 0 && ops[|ops| - 1].FetchTitle? && RaisesOn(env, ops[|ops| - 1].url)
  }

  /** The calls of a pass in which no fetch raised. */
  predicate NoRaise(env: Env, ops: seq<Op>) {
    forall i :: 0 <= i < |ops| && ops[i].FetchTitle? ==> !RaisesOn(env, ops[i].url)
  }

  lemma RaiseCallsConcat(env: Env, a: seq<Op>, b: seq<Op>)
    requires NoRaise(env, a)
    ensures EndsInRaise(env, b) ==> EndsInRaise(env, a + b)
    ensures NoRaise(env, b) ==> NoRaise(env, a + b)
  {
    if EndsInRaise(env, b) {
      assert (a + b)[|a + b| - 1] == b[|b| - 1];
    }
    if NoRaise(env, b) {
      forall i | 0 <= i < |a + b| && (a + b)[i].FetchTitle? ensures !RaisesOn(env, (a + b)[i].url) {
        if i >= |a| {
          assert (a + b)[i] == b[i - |a|];
        }
      }
    }
  }

  /** A resolution never saves; it raises exactly when its last call is a raising fetch, and otherwise
    * no fetch in it raised. */
  lemma ResolveCalls(env: Env, c: Cache, url: string)
    requires url != ""
    ensures var r := Resolve(env, c, url);
      CacheSave !in r.ops && (r.raised ==> EndsInRaise(env, r.ops)) && (!r.raised ==> NoRaise(env, r.ops))
  {
  }

  lemma {:induction false} ItemsCalls(env: Env, items: seq<ChecklistItem>, c: Cache)
    ensures var r := ProcessItems(env, items, c);
      CacheSave !in r.ops && (r.raised ==> EndsInRaise(env, r.ops)) && (!r.raised ==> NoRaise(env, r.ops))
    decreases |items|
  {
    if |items| > 0 {
      var first := ProcessItem(env, items[0], c);
      if UrlOf(env, items[0]).Some? {
        ResolveCalls(env, c, UrlOf(env, items[0]).value);
      }
      if !first.raised {
        ItemsCalls(env, items[1..], first.cache);
        RaiseCallsConcat(env, first.ops, ProcessItems(env, items[1..], first.cache).ops);
      }
    }
  }

  lemma {:induction false} ChecklistsCalls(env: Env, cls: seq<Checklist>, c: Cache)
    ensures var r := ProcessChecklists(env, cls, c);
      CacheSave !in r.ops && (r.raised ==> EndsInRaise(env, r.ops)) && (!r.raised ==> NoRaise(env, r.ops))
    decreases |cls|
  {
    if |cls| > 0 {
      var first := ProcessChecklist(env, cls[0], c);
      ItemsCalls(env, cls[0].items, c);
      if !first.raised {
        ChecklistsCalls(env, cls[1..], first.cache);
        RaiseCallsConcat(env, first.ops, ProcessChecklists(env, cls[1..], first.cache).ops);
      }
    }
  }

  lemma {:induction false} CardsCalls(env: Env, cards: seq<Card>, c: Cache)
    ensures var r := ProcessCards(env, cards, c);
      CacheSave !in r.ops && (r.raised ==> EndsInRaise(env, r.ops)) && (!r.raised ==> NoRaise(env, r.ops))
    decreases |cards|
  {
    if |cards| > 0 {
      var first := ProcessCard(env, cards[0], c);
      ChecklistsCalls(env, cards[0].checklists, c);
      if !first.raised {
        CardsCalls(env, cards[1..], first.cache);
        RaiseCallsConcat(env, first.ops, ProcessCards(env, cards[1..], first.cache).ops);
      }
    }
  }

  /** The list walk never saves the cache; it raises exactly when its last call is a fetch that raised,
    * and otherwise none of its fetches raised. */
  lemma {:induction false} WalkCalls(env: Env, ls: seq<TrelloList>, c: Cache)
    ensures var r := ProcessLists(env, ls, c);
      CacheSave !in r.ops && (r.raised ==> EndsInRaise(env, r.ops)) && (!r.raised ==> NoRaise(env, r.ops))
    decreases |ls|
  {
    if |ls| > 0 {
      var first := ProcessList(env, ls[0], c);
      CardsCalls(env, ls[0].cards, c);
      if !first.raised {
        WalkCalls(env, ls[1..], first.cache);
        RaiseCallsConcat(env, first.ops, ProcessLists(env, ls[1..], first.cache).ops);
      }
    }
  }

  /** A walk whose policy catches fetch exceptions never raises. */
  lemma CatchingWalkNeverRaises(env: Env, ls: seq<TrelloList>, c: Cache)
    requires env.policy.catchesFetch
    ensures !ProcessLists(env, ls, c).raised
  {
    WalkCalls(env, ls, c);
  }
}
