/**
  KosuzuParsesEverything: decides whether a chat message is worth
  translating and extracts the text to translate.

  Configured patterns come in two kinds. Static ones are compiled at start-up
  and tried first, in configuration order. Templated ones contain
  `%username%`; they are compiled per player, on first use, with the player's
  name in place of every `%username%`, and the compiled instance is cached
  under the player's UUID for good. A pattern must match the WHOLE text; the
  result is its capture group 1.

  The regular-expression engine is a parameter: `FullMatch` answers
  `matcher.matches()` and, on a match, `matcher.group(1)`.
 */
module Extraction {
  import opened Wrappers
  import opened Text
  import opened Game

  /** A compiled pattern. Compiling is deterministic, so the source text identifies it. */
  datatype Pattern = Pattern(source: string)

  /**
    The outcome of a whole-string match. Java's `group(1)` is null when the
    group did not take part in the match, hence the optional group.
   */
  datatype MatchResult = NoMatch | Matched(group: Option<string>)

  /** The regular-expression engine: `pattern.matcher(text).matches()` and `group(1)`. */
  type FullMatch = (Pattern, string) -> MatchResult

  /** One templated pattern's per-player instances, keyed by UUID. */
  type Cache = map<Uuid, Pattern>

  // ---------------------------------------------------------------------------
  // Construction: partitioning `match.include`
  // ---------------------------------------------------------------------------

  predicate IsTemplated(source: string)
  {
    Contains(source, UsernamePlaceholder)
  }

  /** The static patterns built from `config`: its non-templated entries, compiled, in order. */
  function StaticPatterns(config: seq<string>): seq<Pattern>
    decreases |config|
  {
    if config == [] then []
    else
      var last := config[|config| - 1];
      StaticPatterns(config[..|config| - 1]) + (if IsTemplated(last) then [] else [Pattern(last)])
  }

  /** The templated entries of `config`, duplicates included, in order. */
  function TemplatedEntries(config: seq<string>): seq<string>
    decreases |config|
  {
    if config == [] then []
    else
      var last := config[|config| - 1];
      TemplatedEntries(config[..|config| - 1]) + (if IsTemplated(last) then [last] else [])
  }

  /** The keys of `placeholderRegexes` after construction. */
  function TemplatedKeys(config: seq<string>): set<string>
  {
    set k | k in config && IsTemplated(k)
  }

  /** `placeholderRegexes` after construction: one empty cache per templated entry. */
  function EmptyCaches(config: seq<string>): map<string, Cache>
  {
    map k | k in TemplatedKeys(config) :: map[]
  }

  /** `order` lists every element of `keys` exactly once: a map's iteration order. */
  ghost predicate Enumerates(order: seq<string>, keys: set<string>)
  {
    && (forall i, j :: 0 <= i < j < |order| ==> order[i] != order[j])
    && (forall k :: k in order <==> k in keys)
  }

  /** Static patterns keep configuration order: appending entries appends their patterns. */
  lemma {:induction false} StaticPatternsAppend(a: seq<string>, b: seq<string>)
    ensures StaticPatterns(a + b) == StaticPatterns(a) + StaticPatterns(b)
    decreases |b|
  {
    if b == [] {
      assert a + b == a;
    } else {
      var b' := b[..|b| - 1];
      assert (a + b)[..|a + b| - 1] == a + b';
      StaticPatternsAppend(a, b');
    }
  }

  /**
    Every entry goes to exactly one side, duplicates included: the static
    patterns and the templated entries together are the configuration.
   */
  lemma {:induction false} ConfigPartition(config: seq<string>)
    ensures |StaticPatterns(config)| + |TemplatedEntries(config)| == |config|
    ensures forall i :: 0 <= i < |StaticPatterns(config)| ==>
              StaticPatterns(config)[i].source in config && !IsTemplated(StaticPatterns(config)[i].source)
    ensures forall k :: k in TemplatedEntries(config) <==> k in config && IsTemplated(k)
    decreases |config|
  {
    if config != [] {
      var init := config[..|config| - 1];
      ConfigPartition(init);
      assert config == init + [config[|config| - 1]];
    }
  }

  /**
    Duplicate templated entries collapse into one key, so there are never more
    keys than templated entries.
   */
  lemma {:induction false} TemplatedKeysCollapse(config: seq<string>)
    ensures TemplatedKeys(config) == set k | k in TemplatedEntries(config)
    ensures |TemplatedKeys(config)| <= |TemplatedEntries(config)|
  {
    ConfigPartition(config);
    SetOfSeqBound(TemplatedEntries(config));
  }

  lemma {:induction false} SetOfSeqBound(s: seq<string>)
    ensures |set k | k in s| <= |s|
    decreases |s|
  {
    if s != [] {
      var init := s[..|s| - 1];
      SetOfSeqBound(init);
      assert (set k | k in s) == (set k | k in init) + {s[|s| - 1]};
    }
  }

  // ---------------------------------------------------------------------------
  // getTextMessage: the specification
  // ---------------------------------------------------------------------------

  /** Index of the first pattern that matches the whole of `text`, or `|ps|` if none does. */
  function FirstMatch(ps: seq<Pattern>, text: string, fullMatch: FullMatch): (k: nat)
    ensures k <= |ps|
    ensures forall j :: 0 <= j < k ==> fullMatch(ps[j], text) == NoMatch
    ensures k < |ps| ==> fullMatch(ps[k], text).Matched?
    decreases |ps|
  {
    if ps == [] then 0
    else if fullMatch(ps[0], text).Matched? then 0
    else 1 + FirstMatch(ps[1..], text, fullMatch)
  }

  /** The template with the player's name in place of every `%username%`. */
  function Instantiate(template: string, name: string): Pattern
  {
    Pattern(ReplaceAll(template, UsernamePlaceholder, name))
  }

  /** The instance `computeIfAbsent` yields: the cached one if present, else a new one. */
  function Instance(caches: map<string, Cache>, template: string, player: Player): Pattern
    requires template in caches
  {
    if player.uuid in caches[template] then caches[template][player.uuid]
    else Instantiate(template, player.name)
  }

  /** The instances of the templates in iteration order, for `player`. */
  function Instances(caches: map<string, Cache>, order: seq<string>, player: Player): (r: seq<Pattern>)
    requires forall k :: k in order ==> k in caches
  {
    seq(|order|, i requires 0 <= i < |order| => Instance(caches, order[i], player))
  }

  /** `cache.computeIfAbsent(uuid, ...)` on the cache of `template`. */
  function ComputeIfAbsent(caches: map<string, Cache>, template: string, player: Player): (r: map<string, Cache>)
    requires template in caches
    ensures r.Keys == caches.Keys
    ensures player.uuid in r[template] && r[template][player.uuid] == Instance(caches, template, player)
  {
    if player.uuid in caches[template] then caches
    else caches[template := caches[template][player.uuid := Instantiate(template, player.name)]]
  }

  /** The caches after `computeIfAbsent` on each of `visited`, in order. */
  function Populate(caches: map<string, Cache>, visited: seq<string>, player: Player): (r: map<string, Cache>)
    requires forall k :: k in visited ==> k in caches
    ensures r.Keys == caches.Keys
    decreases |visited|
  {
    if visited == [] then caches
    else
      var init := visited[..|visited| - 1];
      assert forall k :: k in init ==> k in visited;
      ComputeIfAbsent(Populate(caches, init, player), visited[|visited| - 1], player)
  }

  /** Group 1 of the pattern at `k`, or null when `k` is past the end. */
  function GroupAt(ps: seq<Pattern>, k: nat, text: string, fullMatch: FullMatch): Option<string>
    requires k < |ps| ==> fullMatch(ps[k], text).Matched?
  {
    if k < |ps| then fullMatch(ps[k], text).group else None
  }

  /** What `getTextMessage` returns for `text` sent to `player`. */
  function Extract(regexes: seq<Pattern>, order: seq<string>, caches: map<string, Cache>,
                   text: string, player: Player, fullMatch: FullMatch): Option<string>
    requires forall k :: k in order ==> k in caches
  {
    var s := FirstMatch(regexes, text, fullMatch);
    if s < |regexes| then GroupAt(regexes, s, text, fullMatch)
    else
      var ps := Instances(caches, order, player);
      GroupAt(ps, FirstMatch(ps, text, fullMatch), text, fullMatch)
  }

  /**
    The templates `getTextMessage` visits: none when a static pattern matched,
    otherwise those up to and including the first templated match.
   */
  function Visited(regexes: seq<Pattern>, order: seq<string>, caches: map<string, Cache>,
                   text: string, player: Player, fullMatch: FullMatch): (r: seq<string>)
    requires forall k :: k in order ==> k in caches
  {
    if FirstMatch(regexes, text, fullMatch) < |regexes| then []
    else
      var t := FirstMatch(Instances(caches, order, player), text, fullMatch);
      order[..if t < |order| then t + 1 else |order|]
  }

  /** The caches after `getTextMessage`. */
  function CachesAfter(regexes: seq<Pattern>, order: seq<string>, caches: map<string, Cache>,
                       text: string, player: Player, fullMatch: FullMatch): map<string, Cache>
    requires forall k :: k in order ==> k in caches
  {
    var v := Visited(regexes, order, caches, text, player, fullMatch);
    assert forall k :: k in v ==> k in order;
    Populate(caches, v, player)
  }

  /** Every cached instance is its template with some player name substituted. */
  ghost predicate CachesWellFormed(caches: map<string, Cache>)
  {
    forall k, u :: k in caches && u in caches[k] ==>
      exists name :: caches[k][u] == Instantiate(k, name)
  }

  /**
    What holds of a parser between calls: static patterns are free of the
    placeholder, the iteration order lists each key once, every key holds
    the placeholder, and every cached instance is its key with a name
    substituted.
   */
  ghost predicate ParserInvariant(regexes: seq<Pattern>, order: seq<string>, caches: map<string, Cache>)
  {
    && (forall i :: 0 <= i < |regexes| ==> !IsTemplated(regexes[i].source))
    && Enumerates(order, caches.Keys)
    && (forall i :: 0 <= i < |order| ==> IsTemplated(order[i]))
    && CachesWellFormed(caches)
  }

  /** A freshly built parser meets the invariant. */
  lemma ConstructedInvariant(config: seq<string>, iterationOrder: seq<string>)
    requires Enumerates(iterationOrder, TemplatedKeys(config))
    ensures ParserInvariant(StaticPatterns(config), iterationOrder, EmptyCaches(config))
  {
    ConfigPartition(config);
    assert forall i :: 0 <= i < |iterationOrder| ==> iterationOrder[i] in TemplatedKeys(config);
  }

  // ---------------------------------------------------------------------------
  // The parser object
  // ---------------------------------------------------------------------------

  class Parser {
    /** The static patterns, in configuration order (`regexes`). */
    var regexes: seq<Pattern>
    /** Template source to per-player instance cache (`placeholderRegexes`). */
    var placeholderRegexes: map<string, Cache>
    /** The order in which the `placeholderRegexes` HashMap iterates its keys. */
    const placeholderOrder: seq<string>
    /** The regular-expression engine. */
    const fullMatch: FullMatch

    ghost predicate Valid()
      reads this
    {
      ParserInvariant(regexes, placeholderOrder, placeholderRegexes)
    }

    /**
      Splits `config` (`match.include`) into static patterns and templates.
      `iterationOrder` is the order in which the resulting HashMap happens to
      enumerate its keys.
     */
    constructor(config: seq<string>, iterationOrder: seq<string>, engine: FullMatch)
      requires Enumerates(iterationOrder, TemplatedKeys(config))
      ensures Valid()
      ensures regexes == StaticPatterns(config)
      ensures placeholderRegexes == EmptyCaches(config)
      ensures placeholderOrder == iterationOrder && fullMatch == engine
    {
      var statics: seq<Pattern> := [];
      var templates: map<string, Cache> := map[];
      for i := 0 to |config|
        invariant statics == StaticPatterns(config[..i])
        invariant templates == EmptyCaches(config[..i])
      {
        var regex := config[i];
        assert config[..i + 1] == config[..i] + [regex];
        if IsTemplated(regex) {
          templates := templates[regex := map[]];
        } else {
          statics := statics + [Pattern(regex)];
        }
        assert config[..i + 1][..i] == config[..i];
      }
      assert config[..|config|] == config;
      ConstructedInvariant(config, iterationOrder);
      regexes := statics;
      placeholderRegexes := templates;
      placeholderOrder := iterationOrder;
      fullMatch := engine;
    }

    /**
      `getTextMessage`: group 1 of the first static pattern that matches the
      whole plain text of `component`; failing that, group 1 of the first
      templated pattern (in iteration order) whose instance for `player`
      matches, creating and caching the instances it visits; null otherwise.
     */
    method GetTextMessage(component: Component, player: Player) returns (r: Option<string>)
      requires Valid()
      modifies this`placeholderRegexes
      ensures Valid()
      ensures r == Extract(regexes, placeholderOrder, old(placeholderRegexes), PlainText(component), player, fullMatch)
      ensures placeholderRegexes ==
                CachesAfter(regexes, placeholderOrder, old(placeholderRegexes), PlainText(component), player, fullMatch)
    {
      var text := PlainText(component);

      for i := 0 to |regexes|
        invariant forall j :: 0 <= j < i ==> fullMatch(regexes[j], text) == NoMatch
      {
        var m := fullMatch(regexes[i], text);
        if m.Matched? {
          assert FirstMatch(regexes, text, fullMatch) == i;
          return m.group;
        }
      }
      assert FirstMatch(regexes, text, fullMatch) == |regexes|;
      r := MatchTemplates(text, player);
    }

    /**
      The second loop of `getTextMessage`: the templates in iteration order,
      each instance fetched from the player's cache entry or created and
      cached, until one matches the whole text.
     */
    method MatchTemplates(text: string, player: Player) returns (r: Option<string>)
      requires Valid()
      modifies this`placeholderRegexes
      ensures Valid()
      ensures var ps := Instances(old(placeholderRegexes), placeholderOrder, player);
        var t := FirstMatch(ps, text, fullMatch);
        && r == GroupAt(ps, t, text, fullMatch)
        && placeholderRegexes == Populate(old(placeholderRegexes), placeholderOrder[..if t < |ps| then t + 1 else |ps|], player)
    {
      ghost var caches := placeholderRegexes;
      r := None;
      var i := 0;
      var found := false;
      while i < |placeholderOrder| && !found
        invariant 0 <= i <= |placeholderOrder|
        invariant placeholderRegexes == Populate(caches, placeholderOrder[..i], player)
        invariant forall j :: 0 <= j < i - 1 ==> fullMatch(Instance(caches, placeholderOrder[j], player), text) == NoMatch
        invariant !found ==> i == 0 || fullMatch(Instance(caches, placeholderOrder[i - 1], player), text) == NoMatch
        invariant found ==> 0 < i && fullMatch(Instance(caches, placeholderOrder[i - 1], player), text) == Matched(r)
        invariant !found ==> r == None
      {
        var regex := placeholderOrder[i];
        PopulateStep(caches, placeholderOrder, i, player);
        placeholderRegexes := ComputeIfAbsent(placeholderRegexes, regex, player);
        var pattern := placeholderRegexes[regex][player.uuid];
        var m := fullMatch(pattern, text);
        if m.Matched? {
          r := m.group;
          found := true;
        }
        i := i + 1;
      }
      TemplatesOutcome(regexes, placeholderOrder, caches, player, text, fullMatch, i, found);
    }
  }

  // ---------------------------------------------------------------------------
  // Properties of getTextMessage
  // ---------------------------------------------------------------------------

  /**
    One turn of the templated loop: `computeIfAbsent` on the next template
    extends the population by it, and yields the instance `Instance` names.
   */
  lemma PopulateStep(caches: map<string, Cache>, order: seq<string>, i: nat, player: Player)
    requires forall k :: k in order ==> k in caches
    requires i < |order|
    ensures var before := Populate(caches, order[..i], player);
      && ComputeIfAbsent(before, order[i], player) == Populate(caches, order[..i + 1], player)
      && Instance(before, order[i], player) == Instance(caches, order[i], player)
  {
    assert order[..i + 1][..i] == order[..i];
    InstanceStable(caches, order[..i], order[i], player);
  }

  /** Where the templated loop stops determines the result and the caches. */
  lemma TemplatesOutcome(regexes: seq<Pattern>, order: seq<string>, caches: map<string, Cache>, player: Player,
                         text: string, fullMatch: FullMatch, i: nat, found: bool)
    requires forall k :: k in order ==> k in caches
    requires ParserInvariant(regexes, order, caches)
    requires i <= |order| && (found || i == |order|)
    requires forall j :: 0 <= j < i - 1 ==> fullMatch(Instance(caches, order[j], player), text) == NoMatch
    requires !found ==> i == 0 || fullMatch(Instance(caches, order[i - 1], player), text) == NoMatch
    requires found ==> 0 < i && fullMatch(Instance(caches, order[i - 1], player), text).Matched?
    ensures var ps := Instances(caches, order, player);
      var t := FirstMatch(ps, text, fullMatch);
      && (if t < |ps| then t + 1 else |ps|) == i
      && GroupAt(ps, t, text, fullMatch) == (if found then fullMatch(Instance(caches, order[i - 1], player), text).group else None)
      && ParserInvariant(regexes, order, Populate(caches, order[..i], player))
  {
    if found {
      TemplatesFirstMatch(caches, order, player, text, fullMatch, i - 1);
    } else {
      TemplatesFirstMatch(caches, order, player, text, fullMatch, i);
    }
    PopulateKeepsInvariant(regexes, order, caches, order[..i], player);
  }

  /** The loop's stopping point is the first template whose instance matches. */
  lemma TemplatesFirstMatch(caches: map<string, Cache>, order: seq<string>, player: Player,
                            text: string, fullMatch: FullMatch, i: nat)
    requires forall k :: k in order ==> k in caches
    requires i <= |order|
    requires forall j :: 0 <= j < i ==> fullMatch(Instance(caches, order[j], player), text) == NoMatch
    requires i < |order| ==> fullMatch(Instance(caches, order[i], player), text).Matched?
    ensures FirstMatch(Instances(caches, order, player), text, fullMatch) == i
  {
    var ps := Instances(caches, order, player);
    assert forall j :: 0 <= j < |ps| ==> ps[j] == Instance(caches, order[j], player);
  }

  /** Populating keeps every cached instance a substitution instance of its template. */
  lemma {:induction false} PopulateWellFormed(caches: map<string, Cache>, visited: seq<string>, player: Player)
    requires forall k :: k in visited ==> k in caches
    requires CachesWellFormed(caches)
    ensures CachesWellFormed(Populate(caches, visited, player))
    decreases |visited|
  {
    if visited != [] {
      var init := visited[..|visited| - 1];
      assert forall k :: k in init ==> k in visited;
      PopulateWellFormed(caches, init, player);
      ComputeIfAbsentWellFormed(Populate(caches, init, player), visited[|visited| - 1], player);
    }
  }

  /** `getTextMessage` keeps the parser's invariant. */
  lemma PopulateKeepsInvariant(regexes: seq<Pattern>, order: seq<string>, caches: map<string, Cache>,
                               visited: seq<string>, player: Player)
    requires forall k :: k in visited ==> k in caches
    requires ParserInvariant(regexes, order, caches)
    ensures ParserInvariant(regexes, order, Populate(caches, visited, player))
  {
    PopulateWellFormed(caches, visited, player);
  }

  lemma ComputeIfAbsentWellFormed(caches: map<string, Cache>, template: string, player: Player)
    requires template in caches && CachesWellFormed(caches)
    ensures CachesWellFormed(ComputeIfAbsent(caches, template, player))
  {
    if player.uuid !in caches[template] {
      var r := ComputeIfAbsent(caches, template, player);
      forall k, u | k in r && u in r[k]
        ensures exists name :: r[k][u] == Instantiate(k, name)
      {
        if k == template && u == player.uuid {
          assert r[k][u] == Instantiate(k, player.name);
        } else {
          assert r[k][u] == caches[k][u];
        }
      }
    }
  }

  /** Populating never changes the instance a player gets: the first one made wins. */
  lemma {:induction false} InstanceStable(caches: map<string, Cache>, visited: seq<string>, template: string, player: Player)
    requires forall k :: k in visited ==> k in caches
    requires template in caches
    ensures Instance(Populate(caches, visited, player), template, player) == Instance(caches, template, player)
    decreases |visited|
  {
    if visited != [] {
      var init := visited[..|visited| - 1];
      assert forall k :: k in init ==> k in visited;
      InstanceStable(caches, init, template, player);
    }
  }

  /**
    Caches only grow, and only for this player: an entry of any cache is
    kept with its value, and no other UUID gains or loses an entry.
   */
  lemma {:induction false} PopulateFrame(caches: map<string, Cache>, visited: seq<string>, player: Player)
    requires forall k :: k in visited ==> k in caches
    ensures var r := Populate(caches, visited, player);
      forall k, u :: k in caches ==>
        && (u in caches[k] ==> u in r[k] && r[k][u] == caches[k][u])
        && (u != player.uuid ==> (u in r[k] <==> u in caches[k]))
    decreases |visited|
  {
    if visited != [] {
      var init := visited[..|visited| - 1];
      assert forall k :: k in init ==> k in visited;
      PopulateFrame(caches, init, player);
    }
  }

  /**
    Exactly the visited templates get an entry for the player, and it is the
    instance `Instance` names; every other template's cache is untouched.
   */
  lemma {:induction false} PopulateVisits(caches: map<string, Cache>, visited: seq<string>, player: Player)
    requires forall k :: k in visited ==> k in caches
    ensures var r := Populate(caches, visited, player);
      && (forall k :: k in visited ==> player.uuid in r[k] && r[k][player.uuid] == Instance(caches, k, player))
      && (forall k :: k in caches && k !in visited ==> r[k] == caches[k])
    decreases |visited|
  {
    if visited != [] {
      var init := visited[..|visited| - 1];
      assert forall k :: k in init ==> k in visited;
      PopulateVisits(caches, init, player);
      InstanceStable(caches, init, visited[|visited| - 1], player);
      forall k | k in visited
        ensures k == visited[|visited| - 1] || k in init
      {
        var i :| 0 <= i < |visited| && visited[i] == k;
        if i < |visited| - 1 {
          assert init[i] == k;
        }
      }
    }
  }

  /** Populating twice with the same templates is populating once. */
  lemma {:induction false} PopulateIdempotent(caches: map<string, Cache>, visited: seq<string>, player: Player)
    requires forall k :: k in visited ==> k in caches
    ensures Populate(Populate(caches, visited, player), visited, player) == Populate(caches, visited, player)
  {
    var once := Populate(caches, visited, player);
    PopulateVisits(caches, visited, player);
    PopulateNoop(once, visited, player);
  }

  lemma {:induction false} PopulateNoop(caches: map<string, Cache>, visited: seq<string>, player: Player)
    requires forall k :: k in visited ==> k in caches && player.uuid in caches[k]
    ensures Populate(caches, visited, player) == caches
    decreases |visited|
  {
    if visited != [] {
      var init := visited[..|visited| - 1];
      assert forall k :: k in init ==> k in visited;
      PopulateNoop(caches, init, player);
    }
  }

  /** The instances a player sees do not change across calls. */
  lemma {:induction false} InstancesStable(caches: map<string, Cache>, order: seq<string>, visited: seq<string>, player: Player)
    requires forall k :: k in order ==> k in caches
    requires forall k :: k in visited ==> k in caches
    ensures Instances(Populate(caches, visited, player), order, player) == Instances(caches, order, player)
  {
    forall i | 0 <= i < |order| {
      InstanceStable(caches, visited, order[i], player);
    }
  }

  /**
    A static match wins: when static pattern `i` is the first that matches,
    the result is its group 1, no template is visited and no cache changes.
   */
  lemma StaticMatchWins(regexes: seq<Pattern>, order: seq<string>, caches: map<string, Cache>,
                        text: string, player: Player, fullMatch: FullMatch, i: nat)
    requires forall k :: k in order ==> k in caches
    requires i < |regexes| && fullMatch(regexes[i], text).Matched?
    requires forall j :: 0 <= j < i ==> fullMatch(regexes[j], text) == NoMatch
    ensures Extract(regexes, order, caches, text, player, fullMatch) == fullMatch(regexes[i], text).group
    ensures CachesAfter(regexes, order, caches, text, player, fullMatch) == caches
  {
  }

  /**
    Otherwise the first template in iteration order whose instance matches
    wins; the templates up to and including it, and no others, gain an
    instance for this player.
   */
  lemma {:induction false} TemplatedMatchWins(regexes: seq<Pattern>, order: seq<string>, caches: map<string, Cache>,
                                              text: string, player: Player, fullMatch: FullMatch, i: nat)
    requires forall k :: k in order ==> k in caches
    requires forall j :: 0 <= j < |order| ==> forall j' :: 0 <= j' < |order| && j != j' ==> order[j] != order[j']
    requires forall j :: 0 <= j < |regexes| ==> fullMatch(regexes[j], text) == NoMatch
    requires i < |order| && fullMatch(Instance(caches, order[i], player), text).Matched?
    requires forall j :: 0 <= j < i ==> fullMatch(Instance(caches, order[j], player), text) == NoMatch
    ensures Extract(regexes, order, caches, text, player, fullMatch) == fullMatch(Instance(caches, order[i], player), text).group
    ensures var after := CachesAfter(regexes, order, caches, text, player, fullMatch);
      && (forall j :: 0 <= j <= i ==> player.uuid in after[order[j]] && after[order[j]][player.uuid] == Instance(caches, order[j], player))
      && (forall j :: i < j < |order| ==> after[order[j]] == caches[order[j]])
  {
    var ps := Instances(caches, order, player);
    var s := FirstMatch(regexes, text, fullMatch);
    var t := FirstMatch(ps, text, fullMatch);
    assert s == |regexes|;
    assert fullMatch(ps[i], text).Matched?;
    assert t == i;
    var visited := order[..i + 1];
    assert Visited(regexes, order, caches, text, player, fullMatch) == visited;
    PopulateVisits(caches, visited, player);
    forall j | i < j < |order|
      ensures order[j] !in visited
    {
      forall j' | 0 <= j' < |visited|
        ensures visited[j'] != order[j]
      {
        assert visited[j'] == order[j'];
      }
    }
  }

  /** Every `FullMatch` that, on a match, always yields a group 1. */
  ghost predicate CapturesGroup(fullMatch: FullMatch)
  {
    forall p, text :: fullMatch(p, text) != Matched(None)
  }

  /**
    With an engine whose group 1 always takes part, the result is null exactly
    when no static pattern and no template instance matches the whole text.
   */
  lemma {:induction false} NullIffNothingMatches(regexes: seq<Pattern>, order: seq<string>, caches: map<string, Cache>,
                                                 text: string, player: Player, fullMatch: FullMatch)
    requires forall k :: k in order ==> k in caches
    requires CapturesGroup(fullMatch)
    ensures Extract(regexes, order, caches, text, player, fullMatch).None? <==>
      && (forall j :: 0 <= j < |regexes| ==> fullMatch(regexes[j], text) == NoMatch)
      && (forall j :: 0 <= j < |order| ==> fullMatch(Instance(caches, order[j], player), text) == NoMatch)
  {
    var ps := Instances(caches, order, player);
    var s := FirstMatch(regexes, text, fullMatch);
    var t := FirstMatch(ps, text, fullMatch);
    if s < |regexes| {
      assert fullMatch(regexes[s], text) != Matched(None);
    } else if t < |ps| {
      assert fullMatch(ps[t], text) != Matched(None);
      assert fullMatch(Instance(caches, order[t], player), text) != NoMatch;
    } else {
      assert forall j :: 0 <= j < |order| ==> fullMatch(Instance(caches, order[j], player), text) == fullMatch(ps[j], text);
    }
  }

  /**
    A first match whose group 1 did not take part still ends the search:
    the result is null even when a later pattern would match.
   */
  lemma UncapturedGroupEndsSearch(regexes: seq<Pattern>, order: seq<string>, caches: map<string, Cache>,
                                  text: string, player: Player, fullMatch: FullMatch, i: nat)
    requires forall k :: k in order ==> k in caches
    requires i < |regexes| && fullMatch(regexes[i], text) == Matched(None)
    requires forall j :: 0 <= j < i ==> fullMatch(regexes[j], text) == NoMatch
    ensures Extract(regexes, order, caches, text, player, fullMatch) == None
  {
  }

  /**
    A second call for the same player and text gives the same result and
    leaves the caches as the first call left them.
   */
  lemma {:induction false} RepeatCallStable(regexes: seq<Pattern>, order: seq<string>, caches: map<string, Cache>,
                                            text: string, player: Player, fullMatch: FullMatch)
    requires forall k :: k in order ==> k in caches
    ensures var after := CachesAfter(regexes, order, caches, text, player, fullMatch);
      && Extract(regexes, order, after, text, player, fullMatch) == Extract(regexes, order, caches, text, player, fullMatch)
      && CachesAfter(regexes, order, after, text, player, fullMatch) == after
  {
    var v := Visited(regexes, order, caches, text, player, fullMatch);
    assert forall k :: k in v ==> k in order;
    var after := Populate(caches, v, player);
    InstancesStable(caches, order, v, player);
    assert Visited(regexes, order, after, text, player, fullMatch) == v;
    PopulateIdempotent(caches, v, player);
  }

  /**
    The cache is keyed by UUID alone: after a call by `player`, a renamed
    player with the same UUID gets, for every visited template, the instance
    built from the old name.
   */
  lemma {:induction false} RenameReusesInstance(regexes: seq<Pattern>, order: seq<string>, caches: map<string, Cache>,
                                                text: string, player: Player, fullMatch: FullMatch, newName: string)
    requires forall k :: k in order ==> k in caches
    ensures var after := CachesAfter(regexes, order, caches, text, player, fullMatch);
      forall k :: k in Visited(regexes, order, caches, text, player, fullMatch) ==>
        Instance(after, k, Player(player.uuid, newName)) == Instance(caches, k, player)
  {
    var v := Visited(regexes, order, caches, text, player, fullMatch);
    assert forall k :: k in v ==> k in order;
    PopulateVisits(caches, v, player);
  }

  /** `getTextMessage` only grows caches, and only under the calling player's UUID. */
  lemma {:induction false} CachesOnlyGrow(regexes: seq<Pattern>, order: seq<string>, caches: map<string, Cache>,
                                          text: string, player: Player, fullMatch: FullMatch)
    requires forall k :: k in order ==> k in caches
    ensures var after := CachesAfter(regexes, order, caches, text, player, fullMatch);
      && after.Keys == caches.Keys
      && forall k, u :: k in caches ==>
           && (u in caches[k] ==> u in after[k] && after[k][u] == caches[k][u])
           && (u != player.uuid ==> (u in after[k] <==> u in caches[k]))
  {
    var v := Visited(regexes, order, caches, text, player, fullMatch);
    assert forall k :: k in v ==> k in order;
    PopulateFrame(caches, v, player);
  }

  /**
    The pieces of a template around its `%username%` tokens: none holds the
    token, and none but the last ends in `%username`, which the `%` of the
    next token would complete into a token starting inside the piece.
   */
  predicate PlaceholderPieces(pieces: seq<string>)
  {
    && (forall k :: 0 <= k < |pieces| ==> !Contains(pieces[k], UsernamePlaceholder))
    && (forall k :: 0 <= k < |pieces| - 1 ==> !EndsWith(pieces[k], "%username"))
  }

  /**
    `%username%` overlaps itself only in its `%`, so no token starts inside
    such a piece even when the next token follows it.
   */
  lemma PieceBeforePlaceholder(piece: string)
    requires !Contains(piece, UsernamePlaceholder) && !EndsWith(piece, "%username")
    ensures NoOccurrenceBefore(piece + UsernamePlaceholder, UsernamePlaceholder, |piece|)
  {
    var t := UsernamePlaceholder;
    ContainsIffOccurs(piece, t);
    forall p | 0 <= p < |piece|
      ensures !OccursAt(piece + t, t, p)
    {
      if p + |t| <= |piece| {
        OccursWithin(piece, piece + t, t, p);
      } else {
        StraddlingToken(piece, p);
      }
    }
  }

  /** A token that would start inside the piece and end in the next token. */
  lemma StraddlingToken(piece: string, p: nat)
    requires p < |piece| < p + |UsernamePlaceholder|
    requires !EndsWith(piece, "%username")
    ensures !OccursAt(piece + UsernamePlaceholder, UsernamePlaceholder, p)
  {
    var t := UsernamePlaceholder;
    var s := piece + t;
    var m := |piece| - p;
    assert s[p..][m] == '%';
    if m < 9 {
      assert t[m] != '%';
    } else {
      assert s[p..][..9] == piece[|piece| - 9..];
      assert t[..9] == "%username";
    }
  }

  /** Template pieces are separable by the token: the scan finds exactly the tokens between them. */
  lemma PlaceholderPiecesSeparable(pieces: seq<string>)
    requires PlaceholderPieces(pieces)
    ensures SeparableBy(pieces, UsernamePlaceholder)
  {
    forall k | 0 <= k < |pieces| - 1
      ensures NoOccurrenceBefore(pieces[k] + UsernamePlaceholder, UsernamePlaceholder, |pieces[k]|)
    {
      PieceBeforePlaceholder(pieces[k]);
    }
  }

  /**
    A fresh instance replaces every `%username%` the left-to-right scan
    finds: a template split into its pieces around the tokens becomes the
    pieces joined by the player's name.
   */
  lemma {:induction false} FreshInstanceSubstitutes(caches: map<string, Cache>, pieces: seq<string>, player: Player)
    requires Join(pieces, UsernamePlaceholder) in caches
    requires player.uuid !in caches[Join(pieces, UsernamePlaceholder)]
    requires PlaceholderPieces(pieces)
    ensures Instance(caches, Join(pieces, UsernamePlaceholder), player) == Pattern(Join(pieces, player.name))
  {
    PlaceholderPiecesSeparable(pieces);
    ReplaceJoin(pieces, UsernamePlaceholder, player.name);
  }

  /**
    For every template: a fresh instance is the template's pieces around
    the tokens the scan finds, joined by the player's name instead of the
    token.
   */
  lemma FreshInstanceSplits(caches: map<string, Cache>, template: string, player: Player)
    requires template in caches && player.uuid !in caches[template]
    ensures Join(SplitAt(template, UsernamePlaceholder), UsernamePlaceholder) == template
    ensures Instance(caches, template, player) == Pattern(Join(SplitAt(template, UsernamePlaceholder), player.name))
  {
    SplitJoin(template, UsernamePlaceholder);
    ReplaceIsSplitJoin(template, UsernamePlaceholder, player.name);
  }

  /** A `%` that does not start a token stays: `5%: %username%` for Al is `5%: Al`. */
  lemma PercentSignKept()
    ensures Instantiate("5%: %username%", "Al") == Pattern("5%: Al")
  {
    var pieces := ["5%: ", ""];
    assert Join(pieces, UsernamePlaceholder) == "5%: %username%";
    assert Join(pieces, "Al") == "5%: Al";
    MissingFirstCharNotContained("", UsernamePlaceholder);
    assert "5%: "[1..][1..][1..][1..] == [];
    assert !Contains("5%: ", UsernamePlaceholder);
    PlaceholderPiecesSeparable(pieces);
    ReplaceJoin(pieces, UsernamePlaceholder, "Al");
  }
}
