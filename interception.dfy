/**
  KosuzuUnderstandsEverything: the listener that rewrites outgoing chat
  packets so that a click offers a translation, and that greets new players
  in a language guessed from where they connect from.

  Packet transport, the JSON serialisers, the server's chat-type registry and
  the geolocation service are outside the model: a packet is a value held by
  its event, the registry is a map from chat type to decoration rule, and the
  geolocated country code is an input.
 */
module Interception {
  import opened Wrappers
  import opened Text
  import opened Game
  import opened Extraction
  import opened Storage

  // ---------------------------------------------------------------------------
  // Packets and the translation affordance
  // ---------------------------------------------------------------------------

  /** A chat type's registry key (`ChatType.Bound` before resolution). */
  type ChatTypeId = string

  /** A resolved chat type's `decorate`: how a signed body is rendered (sender prefix and so on). */
  type Decoration = Component -> Component

  /** The two outgoing chat packets the listener handles. */
  datatype Packet =
    | PlayerChat(unsignedContent: Option<Component>, body: string, chatType: ChatTypeId)
    | SystemChat(content: Component)

  /** A packet on its way to `player`; handlers may replace or rewrite the packet. */
  class PacketEvent {
    const player: Player
    var packet: Packet

    constructor(player: Player, packet: Packet)
      ensures this.player == player && this.packet == packet
    {
      this.player := player;
      this.packet := packet;
    }
  }

  const TranslateCommandPrefix := "/kosuzu translate "

  /** The command a click on a rewritten message runs: `/kosuzu translate <id>`. */
  function TranslateCommand(id: MessageId): (r: string)
    ensures TranslateCommandPrefix <= r && |r| > |TranslateCommandPrefix|
    ensures forall i :: |TranslateCommandPrefix| <= i < |r| ==> IsDigit(r[i])
  {
    TranslateCommandPrefix + Decimal(id)
  }

  /** The command names the message it was built for, and no other. */
  lemma {:induction false} TranslateCommandIdentifies(a: MessageId, b: MessageId)
    ensures TranslateCommand(a)[..|TranslateCommandPrefix|] == TranslateCommandPrefix
    ensures TranslateCommand(a) == TranslateCommand(b) <==> a == b
  {
    if TranslateCommand(a) == TranslateCommand(b) {
      var n := |TranslateCommandPrefix|;
      assert TranslateCommand(a)[n..] == Decimal(a);
      assert TranslateCommand(b)[n..] == Decimal(b);
      DecimalRoundTrip(a);
      DecimalRoundTrip(b);
    }
  }

  /**
    `component.hoverEvent(hint).clickEvent(runCommand(...))`: the same
    component with the translation hint on hover and the translate command
    on click.
   */
  function WithAffordance(c: Component, hint: string, id: MessageId): Component
  {
    c.(hover := Some(hint), click := Some(RunCommand(TranslateCommand(id))))
  }

  /**
    Attaching the affordance keeps what the player reads: the same text and
    the same children, with the click naming the stored message.
   */
  lemma AffordanceKeepsText(c: Component, hint: string, id: MessageId)
    ensures PlainText(WithAffordance(c, hint, id)) == PlainText(c)
    ensures WithAffordance(c, hint, id).children == c.children
    ensures WithAffordance(c, hint, id).click == Some(RunCommand(TranslateCommand(id)))
  {
  }

  /** The hover hint for the viewer, in the viewer's stored default language. */
  function HoverHint(database: Database, viewer: Player): string
    reads database
  {
    database.GetTranslation("translate.hover", database.GetUserDefaultLanguage(viewer.uuid))
  }

  /**
    The content of a player-chat packet: the unsigned (server-modified)
    content when present, otherwise a literal of the signed body.
   */
  function MessageContent(unsignedContent: Option<Component>, body: string): (c: Component)
  {
    if unsignedContent.Some? then unsignedContent.value else Literal(body)
  }

  /** Without unsigned content, the message reads exactly as the signed body. */
  lemma MessageContentOfBody(body: string)
    ensures PlainText(MessageContent(None, body)) == body
  {
    assert Join([], []) == [];
  }

  // ---------------------------------------------------------------------------
  // Language resolution for new players
  // ---------------------------------------------------------------------------

  /** The region overrides: country codes whose language code differs from the country code. */
  const RegionOverrides: map<string, string> :=
    map["CN" := "ZH", "TW" := "ZH", "HK" := "ZH", "JP" := "JA", "GB" := "EN-GB", "US" := "EN-US"]

  /** The country after the overrides: the table's entry, or the country itself. */
  function RegionOverride(country: Option<string>): Option<string>
  {
    if country.Some? && country.value in RegionOverrides then Some(RegionOverrides[country.value]) else country
  }

  /**
    The overrides, one by one: China, Taiwan and Hong Kong become Chinese,
    Japan Japanese, Britain and the United States their English variants;
    every other country, and an unknown one, passes unchanged.
   */
  lemma RegionOverrideTable(country: string)
    ensures RegionOverride(Some("CN")) == RegionOverride(Some("TW")) == RegionOverride(Some("HK")) == Some("ZH")
    ensures RegionOverride(Some("JP")) == Some("JA")
    ensures RegionOverride(Some("GB")) == Some("EN-GB") && RegionOverride(Some("US")) == Some("EN-US")
    ensures country !in {"CN", "TW", "HK", "JP", "GB", "US"} ==> RegionOverride(Some(country)) == Some(country)
    ensures RegionOverride(None) == None
  {
  }

  /** No override produces a code that another override would rewrite again. */
  lemma RegionOverrideIdempotent(country: Option<string>)
    ensures RegionOverride(RegionOverride(country)) == RegionOverride(country)
    ensures RegionOverride(country).None? <==> country.None?
  {
  }

  /**
    The override chain of `onPlayerJoin`, one reassignment per special case;
    it amounts to a lookup in the table.
   */
  method OverrideRegion(country: Option<string>) returns (code: Option<string>)
    ensures code == RegionOverride(country)
  {
    code := country;
    if code == Some("CN") { code := Some("ZH"); }
    if code == Some("TW") { code := Some("ZH"); }
    if code == Some("HK") { code := Some("ZH"); }
    if code == Some("JP") { code := Some("JA"); }
    if code == Some("GB") { code := Some("EN-GB"); }
    if code == Some("US") { code := Some("EN-US"); }
  }

  /** A language code matches the wanted code when, upper-cased, it contains it. */
  predicate LanguageMatches(code: string, wanted: string)
  {
    Contains(Upper(code), Upper(wanted))
  }

  /**
    `languages.stream().map(code).filter(matches).findFirst()`: the first
    supported code that matches, or null when none does.
   */
  function FindLanguage(codes: seq<string>, wanted: string): (r: Option<string>)
    ensures r.None? <==> forall i :: 0 <= i < |codes| ==> !LanguageMatches(codes[i], wanted)
    ensures r.Some? ==> exists i :: 0 <= i < |codes| && codes[i] == r.value && LanguageMatches(codes[i], wanted)
                          && forall j :: 0 <= j < i ==> !LanguageMatches(codes[j], wanted)
    decreases |codes|
  {
    if codes == [] then None
    else if LanguageMatches(codes[0], wanted) then Some(codes[0])
    else FindLanguage(codes[1..], wanted)
  }

  /** The language a new player gets: overrides first, then the search; null stays null. */
  function ResolveLanguage(country: Option<string>, languages: seq<string>): Option<string>
  {
    var region := RegionOverride(country);
    if region.None? then None else FindLanguage(languages, region.value)
  }

  /** A resolved language is a supported code that contains the overridden country code. */
  lemma ResolvedLanguageSupported(country: Option<string>, languages: seq<string>)
    ensures var r := ResolveLanguage(country, languages);
      && (country.None? ==> r.None?)
      && (r.Some? ==> r.value in languages && LanguageMatches(r.value, RegionOverride(country).value))
  {
  }

  /** The three welcome lines a new player is sent. */
  datatype Welcome = Welcome(first: string, second: string, third: string)

  /** The welcome in `language` (or the fallback), with the player's name in the first line. */
  function WelcomeMessage(database: Database, language: Option<string>, name: string): Welcome
  {
    Welcome(
      ReplaceAll(database.GetTranslation("welcome.first", language), UsernamePlaceholder, name),
      database.GetTranslation("welcome.second", language),
      database.GetTranslation("welcome.third", language))
  }

  /**
    The first welcome line names the player at every `%username%` of the
    translated template, split into its pieces around the tokens.
   */
  lemma WelcomeNamesPlayer(database: Database, language: Option<string>, name: string, pieces: seq<string>)
    requires database.GetTranslation("welcome.first", language) == Join(pieces, UsernamePlaceholder)
    requires PlaceholderPieces(pieces)
    ensures WelcomeMessage(database, language, name).first == Join(pieces, name)
    ensures WelcomeMessage(database, language, name).second == database.GetTranslation("welcome.second", language)
  {
    PlaceholderPiecesSeparable(pieces);
    ReplaceJoin(pieces, UsernamePlaceholder, name);
  }

  // ---------------------------------------------------------------------------
  // The listener
  // ---------------------------------------------------------------------------

  class Listener {
    const database: Database
    const parser: Parser

    ghost predicate Valid()
      reads this, parser
    {
      parser.Valid()
    }

    /** Builds the parser from `match.include`; registering the packet listeners is not modelled. */
    constructor(database: Database, config: seq<string>, iterationOrder: seq<string>, engine: FullMatch)
      requires Enumerates(iterationOrder, TemplatedKeys(config))
      ensures Valid() && fresh(parser)
      ensures this.database == database
      ensures parser.regexes == StaticPatterns(config) && parser.placeholderRegexes == EmptyCaches(config)
      ensures parser.placeholderOrder == iterationOrder && parser.fullMatch == engine
    {
      this.database := database;
      parser := new Parser(config, iterationOrder, engine);
    }

    /**
      `onClientChatSend`: a player-chat packet is decorated by its chat type,
      stored, and replaced by a system-chat packet carrying the translation
      affordance. An unknown chat type leaves the packet as it is.
     */
    method OnClientChatSend(event: PacketEvent, registry: map<ChatTypeId, Decoration>)
      requires event.packet.PlayerChat?
      modifies event`packet, database`messages
      ensures var p := old(event.packet);
        var message := MessageContent(p.unsignedContent, p.body);
        if p.chatType !in registry then
          event.packet == p && database.messages == old(database.messages)
        else
          var shown := Literal(PlainText(registry[p.chatType](message)));
          && database.messages == old(database.messages) + [StoredMessage(shown, PlainText(message))]
          && event.packet == SystemChat(WithAffordance(shown, HoverHint(database, event.player), |old(database.messages)|))
    {
      var signature := event.packet;
      var message := MessageContent(signature.unsignedContent, signature.body);

      if signature.chatType !in registry {
        // An unknown chat type is logged; the packet goes out unchanged.
        return;
      }

      var decorated := registry[signature.chatType](message);
      var component := Literal(PlainText(decorated));
      var id := database.AddMessage(component, PlainText(message));
      var hint := HoverHint(database, event.player);
      event.packet := SystemChat(WithAffordance(component, hint, id));
    }

    /**
      `onServerChatSend`: a system-chat packet is rewritten only when the
      parser extracts text from it; the stored plain text is the extracted
      text, and the affordance is attached to the original component.
     */
    method OnServerChatSend(event: PacketEvent)
      requires Valid() && event.packet.SystemChat?
      modifies parser`placeholderRegexes, database`messages, event`packet
      ensures Valid()
      ensures var c := old(event.packet.content);
        var extracted := Extract(parser.regexes, parser.placeholderOrder, old(parser.placeholderRegexes),
                                 PlainText(c), event.player, parser.fullMatch);
        && parser.placeholderRegexes == CachesAfter(parser.regexes, parser.placeholderOrder, old(parser.placeholderRegexes),
                                                    PlainText(c), event.player, parser.fullMatch)
        && if extracted.None? then
             event.packet == old(event.packet) && database.messages == old(database.messages)
           else
             && database.messages == old(database.messages) + [StoredMessage(c, extracted.value)]
             && event.packet == SystemChat(WithAffordance(c, HoverHint(database, event.player), |old(database.messages)|))
    {
      var component := event.packet.content;
      var text := parser.GetTextMessage(component, event.player);

      if text.Some? {
        var id := database.AddMessage(component, text.value);
        var hint := HoverHint(database, event.player);
        event.packet := SystemChat(WithAffordance(component, hint, id));
      }
    }

    /**
      `onPlayerJoin`: a player seen for the first time gets a default
      language from the geolocated `country` (overrides, then the search) and
      the welcome message. A failed store (`storeFails`) is logged and
      swallowed; the welcome still uses the resolved language.
     */
    method OnPlayerJoin(player: Player, country: Option<string>, storeFails: bool) returns (welcome: Option<Welcome>)
      modifies database`users, database`defaultLanguages
      ensures database.users == old(database.users) + {player.uuid}
      ensures player.uuid in old(database.users) ==>
        welcome.None? && database.defaultLanguages == old(database.defaultLanguages)
      ensures player.uuid !in old(database.users) ==>
        var language := ResolveLanguage(country, database.languages);
        && database.defaultLanguages ==
             (if language.Some? && !storeFails then old(database.defaultLanguages)[player.uuid := language.value]
              else old(database.defaultLanguages))
        && welcome == Some(WelcomeMessage(database, language, player.name))
    {
      welcome := None;
      var isNew := database.IsNewUser(player.uuid, player.name);
      if isNew {
        var code := OverrideRegion(country);

        if code.Some? {
          code := FindLanguage(database.languages, code.value);
        }

        if code.Some? {
          var stored := database.SetUserDefaultLanguage(player.uuid, code.value, storeFails);
          // A failure is logged and the join continues.
        }

        welcome := Some(WelcomeMessage(database, code, player.name));
      }
    }
  }

  // ---------------------------------------------------------------------------
  // Worked cases
  // ---------------------------------------------------------------------------

  /** China resolves to the first supported code containing "ZH". */
  lemma ChinaResolvesToChinese()
    ensures ResolveLanguage(Some("CN"), ["EN-US", "EN-GB", "ZH-HANS", "JA"]) == Some("ZH-HANS")
  {
    UpperKeepsCapitals("ZH");
    UpperKeepsCapitals("EN-US");
    UpperKeepsCapitals("EN-GB");
    UpperKeepsCapitals("ZH-HANS");
    MissingFirstCharNotContained("EN-US", "ZH");
    MissingFirstCharNotContained("EN-GB", "ZH");
    assert "ZH" <= "ZH-HANS";
    assert LanguageMatches("ZH-HANS", "ZH");
    assert !LanguageMatches("EN-US", "ZH") && !LanguageMatches("EN-GB", "ZH");
    var codes := ["EN-US", "EN-GB", "ZH-HANS", "JA"];
    assert RegionOverride(Some("CN")) == Some("ZH");
    assert codes[1..][1..] == ["ZH-HANS", "JA"];
    assert FindLanguage(["ZH-HANS", "JA"], "ZH") == Some("ZH-HANS");
    assert FindLanguage(codes[1..], "ZH") == Some("ZH-HANS");
  }

  /**
    A signed "hello" with no unsigned content, on a fresh database: the
    stored plain text is "hello", the packet becomes a system-chat packet
    whose click runs the translate command for the new message's id, and the
    text shown is the decorated one.
   */
  method HelloIsStoredAndOffered() returns (stored: seq<StoredMessage>, packet: Packet)
    ensures |stored| == 1 && stored[0].plainText == "hello"
    ensures packet.SystemChat? && packet.content.click == Some(RunCommand(TranslateCommand(0)))
    ensures PlainText(packet.content) == "<Alice> hello"
  {
    var prefix: Decoration := (c: Component) => Component("<Alice> ", [c], None, None);
    var decorated := prefix(Literal("hello"));
    MessageContentOfBody("hello");
    assert seq(|decorated.children|, i requires 0 <= i < |decorated.children| => PlainText(decorated.children[i])) == ["hello"];
    assert PlainText(decorated) == "<Alice> hello";

    var database := new Database(["EN-US"], (key: string, language: Option<string>) => key);
    var listener := new Listener(database, [], [], (p: Pattern, text: string) => NoMatch);
    var event := new PacketEvent(Player(1, "Alice"), PlayerChat(None, "hello", "chat"));
    listener.OnClientChatSend(event, map["chat" := prefix]);
    stored := database.messages;
    packet := event.packet;
  }
}
