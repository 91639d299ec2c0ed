# Kosuzu chat interception and text extraction, in Dafny

Kosuzu is a Minecraft server plugin that offers a translation for chat messages.
This project models the two classes at its core and proves properties of them.

- **`KosuzuParsesEverything`** (`extraction.dfy`, module `Extraction`) decides whether a chat message should be translated. If so, it extracts the text to translate.
  - At construction, the configured `match.include` patterns are split in two. Patterns without `%username%` become static patterns, kept in configuration order. Patterns containing `%username%` become templates, each with an empty per-player cache.
  - `getTextMessage` first tries the static patterns, in order, against the whole plain text of the message. If none matches, it tries the templates in the order their `HashMap` enumerates them.
  - A template's instance for a player is made by replacing every `%username%` with the player's name. It is built only on first use and cached under the player's UUID (`computeIfAbsent`).
  - The result is capture group 1 of the first pattern that matches, or null.
- **`KosuzuUnderstandsEverything`** (`interception.dfy`, module `Interception`) is the listener.
  - A player-chat packet whose chat type resolves is decorated and stored. It is then replaced by a system-chat packet with a hover hint and a click that runs `/kosuzu translate <id>`. An unknown chat type leaves the packet untouched.
  - A system-chat packet is stored and rewritten the same way, but only when the parser extracts text from it.
  - A player joining for the first time is given a default language: a country-to-language override table, then a search of the supported languages. The player is then sent the welcome lines, with their name substituted into the first one.

Supporting modules:

- `text.dfy` (`Text`): the `java.lang.String` operations the core relies on. These are `contains`, `replace` (every occurrence, left to right), `toUpperCase` and the decimal text of an id.
- `game.dfy` (`Game`): players and the chat-component tree, with its plain-text rendering.
- `storage.dfy` (`Storage`): the database as the listener uses it. `KosuzuRemembersEverything` itself is not part of this model. Its class models only the state the listener's decisions depend on: known players, default languages, stored messages, supported languages and translations.
- `wrappers.dfy`: `Option`, which stands for Java's nullable references.

The regular-expression engine is a parameter of the parser, `FullMatch = (Pattern, string) -> MatchResult`. It answers `matcher.matches()` and, on a match, `group(1)`. Group 1 may be null when the group did not take part in the match. The templates' `HashMap` iteration order is also a parameter: a sequence that lists each key exactly once.

Points where the code behaves differently from what a reader might expect; the model follows the code:

- Templates are tried in `HashMap` iteration order (`KosuzuParsesEverything.java:31,65`), not in the order `match.include` lists them.
- The result is always capture group 1 (`KosuzuParsesEverything.java:61,73`). A pattern such as `^\[Bridge\] <(.+)> (.+)$`, whose message is in group 2, therefore yields the sender's name, not the message.
- `%username%` is replaced with the name of the player passed to `getTextMessage`, and `onServerChatSend` passes the packet's *receiver* (`KosuzuUnderstandsEverything.java:109,115`). The parameter's doc comment (`KosuzuParsesEverything.java:52`) calls it the player who sent the message.
- An invalid pattern is not turned into a configuration error: `Pattern.compile` throws, unhandled, at construction for a static pattern (`KosuzuParsesEverything.java:41`) and on first use for a template (`KosuzuParsesEverything.java:69`).
- For player chat, the stored plain text is the *undecorated* message (`KosuzuUnderstandsEverything.java:90`). The stored JSON is a literal of the *decorated* text (`KosuzuUnderstandsEverything.java:84-88`).
- The region overrides compare country codes exactly, case included (`Objects.equals`, `KosuzuUnderstandsEverything.java:143-148`).

## Model

| member | source | states |
|---|---|---|
| Extraction.Parser.constructor | src/main/java/net/gensokyoreimagined/motoori/KosuzuParsesEverything.java:37-43 | The static patterns are the non-templated config entries, in config order. Every templated entry is a key with an empty cache. The parser invariant holds. |
| Extraction.ConfigPartition | src/main/java/net/gensokyoreimagined/motoori/KosuzuParsesEverything.java:37-43 | Every entry goes to exactly one side, duplicates included: the static and templated counts sum to the config length. Static patterns are config entries without `%username%`. An entry is templated exactly when it is in the config and holds `%username%`. |
| Extraction.StaticPatternsAppend | src/main/java/net/gensokyoreimagined/motoori/KosuzuParsesEverything.java:37-41 | Static patterns keep config order: appending config entries appends their patterns. |
| Extraction.TemplatedKeysCollapse | src/main/java/net/gensokyoreimagined/motoori/KosuzuParsesEverything.java:38-39 | Duplicate templated entries collapse into one map key, so there are no more keys than templated entries. |
| Extraction.Instantiate | src/main/java/net/gensokyoreimagined/motoori/KosuzuParsesEverything.java:69 | Defines a template's instance: the template with `%username%` replaced by a name. Its effect is stated by `Extraction.FreshInstanceSubstitutes` and `Extraction.PercentSignKept`. |
| Extraction.Populate | src/main/java/net/gensokyoreimagined/motoori/KosuzuParsesEverything.java:65-75 | Defines the caches after `computeIfAbsent` on each visited template, in order. It keeps the set of templates. `Extraction.PopulateVisits` and `Extraction.PopulateFrame` state what it adds and what it keeps. |
| Extraction.Extract | src/main/java/net/gensokyoreimagined/motoori/KosuzuParsesEverything.java:55-78 | Defines the result of `getTextMessage`: the group of the first static match, else of the first template instance, else null. `Extraction.StaticMatchWins`, `Extraction.TemplatedMatchWins` and `Extraction.NullIffNothingMatches` characterise it. |
| Extraction.Visited | src/main/java/net/gensokyoreimagined/motoori/KosuzuParsesEverything.java:58-75 | Defines the templates `getTextMessage` visits. There are none after a static match; otherwise they run up to and including the first matching template. |
| Extraction.CachesAfter | src/main/java/net/gensokyoreimagined/motoori/KosuzuParsesEverything.java:55-78 | Defines the caches after `getTextMessage`: `computeIfAbsent` on the visited templates. `Extraction.CachesOnlyGrow` and `Extraction.RepeatCallStable` state its properties. |
| Extraction.FirstMatch | src/main/java/net/gensokyoreimagined/motoori/KosuzuParsesEverything.java:58-63 | The index found is the first whole-text match: every earlier pattern fails, and the one found (if any) matches. |
| Extraction.Parser.GetTextMessage | src/main/java/net/gensokyoreimagined/motoori/KosuzuParsesEverything.java:55-78 | The result is the group of the first static match, else of the first templated instance in iteration order, else null. The caches become exactly those left by `computeIfAbsent` on the templates visited. The static list is never modified, and the invariant is kept. |
| Extraction.Parser.MatchTemplates | src/main/java/net/gensokyoreimagined/motoori/KosuzuParsesEverything.java:65-77 | The templated loop returns the group of the first instance that matches, and populates the caches of the templates up to and including it. |
| Extraction.ComputeIfAbsent | src/main/java/net/gensokyoreimagined/motoori/KosuzuParsesEverything.java:69 | After the call, the player has an entry for the template: the cached instance if there was one, else the freshly substituted template. No template key is added or removed. |
| Extraction.PopulateStep | src/main/java/net/gensokyoreimagined/motoori/KosuzuParsesEverything.java:65-69 | One loop turn extends the population by the next template, and yields the instance the caches before the call determine. |
| Extraction.TemplatesFirstMatch | src/main/java/net/gensokyoreimagined/motoori/KosuzuParsesEverything.java:65-75 | Where the templated loop stops is the first template whose instance matches. |
| Extraction.TemplatesOutcome | src/main/java/net/gensokyoreimagined/motoori/KosuzuParsesEverything.java:65-77 | The loop's exit state gives the first-match result, the visited prefix and the invariant. |
| Extraction.StaticMatchWins | src/main/java/net/gensokyoreimagined/motoori/KosuzuParsesEverything.java:58-63 | When static pattern `i` is the first to match, the result is its group 1. No template is consulted and no cache changes. |
| Extraction.TemplatedMatchWins | src/main/java/net/gensokyoreimagined/motoori/KosuzuParsesEverything.java:65-75 | With no static match, the first template (in iteration order) whose instance matches gives the result. The templates up to it gain the player's instance; the later ones are untouched. |
| Extraction.NullIffNothingMatches | src/main/java/net/gensokyoreimagined/motoori/KosuzuParsesEverything.java:58-77 | For an engine whose group 1 always takes part, the result is null exactly when no static pattern and no template instance matches the whole text. |
| Extraction.UncapturedGroupEndsSearch | src/main/java/net/gensokyoreimagined/motoori/KosuzuParsesEverything.java:60-61 | A first match whose group 1 is null ends the search with null, even if a later pattern would match. |
| Extraction.CachesOnlyGrow | src/main/java/net/gensokyoreimagined/motoori/KosuzuParsesEverything.java:65-77 | `getTextMessage` keeps the template keys and never drops or overwrites a cached instance. No UUID other than the caller's gains or loses an entry. |
| Extraction.PopulateFrame | src/main/java/net/gensokyoreimagined/motoori/KosuzuParsesEverything.java:69 | `computeIfAbsent` over any templates keeps every existing entry, and touches only the given player's UUID. |
| Extraction.PopulateVisits | src/main/java/net/gensokyoreimagined/motoori/KosuzuParsesEverything.java:65-75 | Exactly the visited templates gain the player's instance. Every other template's cache is unchanged. |
| Extraction.PopulateIdempotent | src/main/java/net/gensokyoreimagined/motoori/KosuzuParsesEverything.java:69 | Running `computeIfAbsent` twice on the same templates is running it once. |
| Extraction.PopulateNoop | src/main/java/net/gensokyoreimagined/motoori/KosuzuParsesEverything.java:69 | Templates that already hold the player's instance are left as they are. |
| Extraction.InstanceStable | src/main/java/net/gensokyoreimagined/motoori/KosuzuParsesEverything.java:69 | The first instance made for a player wins: later population never changes the instance the player gets. |
| Extraction.InstancesStable | src/main/java/net/gensokyoreimagined/motoori/KosuzuParsesEverything.java:65-69 | The sequence of instances a player is matched against is the same before and after any call. |
| Extraction.RepeatCallStable | src/main/java/net/gensokyoreimagined/motoori/KosuzuParsesEverything.java:55-78 | A second call with the same text and player gives the same result and leaves the caches unchanged. |
| Extraction.RenameReusesInstance | src/main/java/net/gensokyoreimagined/motoori/KosuzuParsesEverything.java:69 | The cache is keyed by UUID alone. After a call, a renamed player with the same UUID gets the instance built from the old name. |
| Extraction.FreshInstanceSplits | src/main/java/net/gensokyoreimagined/motoori/KosuzuParsesEverything.java:69 | For every template, a fresh instance is the template's pieces around the tokens the scan finds, joined by the player's name. Joining those pieces with the token gives the template back. |
| Extraction.PlaceholderPiecesSeparable | src/main/java/net/gensokyoreimagined/motoori/KosuzuParsesEverything.java:69 | Pieces with no `%username%`, none but the last ending in `%username`, are separable by the token. The scan of `replace` finds exactly the tokens between them. |
| Extraction.PieceBeforePlaceholder | src/main/java/net/gensokyoreimagined/motoori/KosuzuParsesEverything.java:69 | `%username%` overlaps itself only in its `%`. No token starts inside such a piece, even when the next token follows it. |
| Extraction.StraddlingToken | src/main/java/net/gensokyoreimagined/motoori/KosuzuParsesEverything.java:69 | No token starts inside a piece and ends inside the following token, unless the piece ends in `%username`. |
| Extraction.PercentSignKept | src/main/java/net/gensokyoreimagined/motoori/KosuzuParsesEverything.java:69 | A `%` that starts no token is kept: `5%: %username%` for Al becomes `5%: Al`. |
| Extraction.FreshInstanceSubstitutes | src/main/java/net/gensokyoreimagined/motoori/KosuzuParsesEverything.java:69 | A freshly made instance is the template with every `%username%` the scan finds replaced by the player's name. The template is given as its pieces around the tokens: no piece holds the token, and no piece but the last ends in `%username`. `Extraction.FreshInstanceSplits` covers every template. |
| Extraction.PopulateWellFormed | src/main/java/net/gensokyoreimagined/motoori/KosuzuParsesEverything.java:69 | Every cached instance stays its template with some name substituted. |
| Extraction.ComputeIfAbsentWellFormed | src/main/java/net/gensokyoreimagined/motoori/KosuzuParsesEverything.java:69 | One `computeIfAbsent` keeps every cached instance a substitution of its template. |
| Extraction.PopulateKeepsInvariant | src/main/java/net/gensokyoreimagined/motoori/KosuzuParsesEverything.java:31 | Populating caches keeps the parser invariant: static patterns hold no placeholder, and the iteration order lists each templated key once. |
| Text.Contains | src/main/java/net/gensokyoreimagined/motoori/KosuzuParsesEverything.java:38 | Defines `String.contains` as a scan over start positions. `Text.ContainsIffOccurs` ties it to occurrence at some position. |
| Text.ReplaceAll | src/main/java/net/gensokyoreimagined/motoori/KosuzuParsesEverything.java:69 | Defines `String.replace`: a left-to-right scan replacing non-overlapping occurrences. Its properties are stated by `Text.ReplaceJoin`, `Text.ReplaceAbsent` and `Text.ReplaceBySelf`. |
| Text.Upper | src/main/java/net/gensokyoreimagined/motoori/KosuzuUnderstandsEverything.java:154 | Defines `String.toUpperCase` on ASCII letters, position by position. |
| Text.ContainsIffOccurs | src/main/java/net/gensokyoreimagined/motoori/KosuzuParsesEverything.java:38 | `contains` holds exactly when the substring occurs at some position. |
| Text.MissingFirstCharNotContained | src/main/java/net/gensokyoreimagined/motoori/KosuzuUnderstandsEverything.java:154 | A string lacking the first character of `sub` does not contain `sub`. |
| Text.ReplaceJoin | src/main/java/net/gensokyoreimagined/motoori/KosuzuParsesEverything.java:69 | `replace` replaces every occurrence. Segments joined by the target become the same segments joined by the replacement. This holds for segments in which no occurrence of the target starts before the next separator, and the last segment holds no occurrence at all. |
| Text.ReplaceAfterFreePrefix | src/main/java/net/gensokyoreimagined/motoori/KosuzuParsesEverything.java:69 | `replace` copies through unchanged a prefix in which no occurrence of the target starts. |
| Text.ReplaceAbsent | src/main/java/net/gensokyoreimagined/motoori/KosuzuParsesEverything.java:69 | `replace` leaves a string without the target unchanged. |
| Text.ReplaceBySelf | src/main/java/net/gensokyoreimagined/motoori/KosuzuParsesEverything.java:69 | Replacing the target with itself changes nothing. |
| Text.SplitAt | src/main/java/net/gensokyoreimagined/motoori/KosuzuParsesEverything.java:69 | Defines the segments of a string around the occurrences that `replace`'s scan finds. There is always at least one. |
| Text.SplitJoin | src/main/java/net/gensokyoreimagined/motoori/KosuzuParsesEverything.java:69 | Joining the segments back with the target gives the string again. |
| Text.SplitSeparable | src/main/java/net/gensokyoreimagined/motoori/KosuzuParsesEverything.java:69 | The segments are separable: no occurrence starts inside a segment, and the last holds none. |
| Text.ReplaceIsSplitJoin | src/main/java/net/gensokyoreimagined/motoori/KosuzuParsesEverything.java:69 | `replace` on any string is its segments joined by the replacement, so every occurrence the scan finds is replaced and nothing else changes. |
| Text.UpperKeepsCapitals | src/main/java/net/gensokyoreimagined/motoori/KosuzuUnderstandsEverything.java:154 | Upper-casing leaves a string without lower-case letters unchanged. |
| Text.Decimal | src/main/java/net/gensokyoreimagined/motoori/KosuzuUnderstandsEverything.java:98 | An id's text is a non-empty string of digits. |
| Text.DecimalRoundTrip | src/main/java/net/gensokyoreimagined/motoori/KosuzuUnderstandsEverything.java:98 | Reading an id's text back gives the id. |
| Game.PlainText | src/main/java/net/gensokyoreimagined/motoori/KosuzuParsesEverything.java:56 | Defines the plain-text serialisation: the component's own text, then its children's, in order. |
| Interception.TranslateCommand | src/main/java/net/gensokyoreimagined/motoori/KosuzuUnderstandsEverything.java:98 | The click command is `/kosuzu translate ` followed by a non-empty run of digits, the id. |
| Interception.WithAffordance | src/main/java/net/gensokyoreimagined/motoori/KosuzuUnderstandsEverything.java:120-127 | Defines the component with the hover hint and the translate click attached. `Interception.AffordanceKeepsText` states what it keeps. |
| Interception.HoverHint | src/main/java/net/gensokyoreimagined/motoori/KosuzuUnderstandsEverything.java:94 | Defines the hover text: the `translate.hover` translation in the viewer's stored default language, or null when none is stored. |
| Interception.MessageContent | src/main/java/net/gensokyoreimagined/motoori/KosuzuUnderstandsEverything.java:74 | Defines the player-chat content: the unsigned content when present, else a literal of the signed body. See `Interception.MessageContentOfBody`. |
| Interception.TranslateCommandIdentifies | src/main/java/net/gensokyoreimagined/motoori/KosuzuUnderstandsEverything.java:98 | The click command starts with `/kosuzu translate ` and names exactly one message: equal commands have equal ids. |
| Interception.AffordanceKeepsText | src/main/java/net/gensokyoreimagined/motoori/KosuzuUnderstandsEverything.java:120-127 | Adding the hover and click keeps the component's text and children. The click runs the command for the stored id. |
| Interception.MessageContentOfBody | src/main/java/net/gensokyoreimagined/motoori/KosuzuUnderstandsEverything.java:74 | Without unsigned content, the message reads exactly as the signed body. |
| Interception.OverrideRegion | src/main/java/net/gensokyoreimagined/motoori/KosuzuUnderstandsEverything.java:143-148 | The six successive reassignments of the country code give the same code as one lookup in the override table. |
| Interception.RegionOverride | src/main/java/net/gensokyoreimagined/motoori/KosuzuUnderstandsEverything.java:143-148 | Defines the override table lookup. `Interception.RegionOverrideTable` lists its entries and `Interception.OverrideRegion` proves the source's chain equal to it. |
| Interception.RegionOverrideTable | src/main/java/net/gensokyoreimagined/motoori/KosuzuUnderstandsEverything.java:143-148 | CN, TW and HK map to ZH, JP to JA, GB to EN-GB and US to EN-US. Every other country, and null, is unchanged. |
| Interception.RegionOverrideIdempotent | src/main/java/net/gensokyoreimagined/motoori/KosuzuUnderstandsEverything.java:143-148 | No override output is rewritten again, so the six-step chain is one table lookup. Null stays null, and only null becomes null. |
| Interception.LanguageMatches | src/main/java/net/gensokyoreimagined/motoori/KosuzuUnderstandsEverything.java:154 | Defines a match: the upper-cased code contains the upper-cased wanted code. |
| Interception.FindLanguage | src/main/java/net/gensokyoreimagined/motoori/KosuzuUnderstandsEverything.java:152-154 | The search finds nothing exactly when no code matches. Otherwise it finds the first code, in enumeration order, whose upper-cased form contains the wanted code upper-cased. |
| Interception.ResolveLanguage | src/main/java/net/gensokyoreimagined/motoori/KosuzuUnderstandsEverything.java:142-155 | Defines the new player's language: the override, then the search; null when the country is null. `Interception.ResolvedLanguageSupported` and `Interception.ChinaResolvesToChinese` characterise it. |
| Interception.ResolvedLanguageSupported | src/main/java/net/gensokyoreimagined/motoori/KosuzuUnderstandsEverything.java:150-154 | A null country resolves to null. A resolved language is a supported code containing the overridden country code. |
| Interception.ChinaResolvesToChinese | src/main/java/net/gensokyoreimagined/motoori/KosuzuUnderstandsEverything.java:143-154 | CN against EN-US, EN-GB, ZH-HANS, JA resolves to ZH-HANS. |
| Interception.WelcomeMessage | src/main/java/net/gensokyoreimagined/motoori/KosuzuUnderstandsEverything.java:165-172 | Defines the three welcome lines in a language, with `%username%` replaced by the name in the first. `Interception.WelcomeNamesPlayer` states the substitution. |
| Interception.WelcomeNamesPlayer | src/main/java/net/gensokyoreimagined/motoori/KosuzuUnderstandsEverything.java:165-172 | The first welcome line has every `%username%` of the translated template replaced by the player's name. The template is given as its pieces around the tokens, as for `Extraction.FreshInstanceSubstitutes`. The second line is the plain translation. |
| Interception.Listener.constructor | src/main/java/net/gensokyoreimagined/motoori/KosuzuUnderstandsEverything.java:47-51 | The listener owns a freshly built parser over the given patterns, iteration order and engine, and the given database. |
| Interception.Listener.OnClientChatSend | src/main/java/net/gensokyoreimagined/motoori/KosuzuUnderstandsEverything.java:69-106 | An unknown chat type leaves the packet and the store unchanged. Otherwise one message is stored: a literal of the decorated text, with the undecorated text as its plain text. The packet becomes system chat carrying the hover hint and the click for the new id. |
| Interception.Listener.OnServerChatSend | src/main/java/net/gensokyoreimagined/motoori/KosuzuUnderstandsEverything.java:108-132 | When extraction gives null, packet and store are unchanged. Otherwise the original component is stored with the extracted text, and rewritten with the hover hint and the click for the new id. The parser's caches follow `getTextMessage`. |
| Interception.Listener.OnPlayerJoin | src/main/java/net/gensokyoreimagined/motoori/KosuzuUnderstandsEverything.java:134-174 | A known player gets nothing and no language change. A new player gets the override-then-search language stored, unless storing fails. They are welcomed in that language either way. |
| Interception.HelloIsStoredAndOffered | src/main/java/net/gensokyoreimagined/motoori/KosuzuUnderstandsEverything.java:74-105 | A signed "hello" is stored with plain text "hello" and rewritten with the decorated text and a click for message 0. |
| Storage.Database.IsNewUser | src/main/java/net/gensokyoreimagined/motoori/KosuzuUnderstandsEverything.java:141 | A player is new exactly when not seen before, and is recorded. |
| Storage.Database.SetUserDefaultLanguage | src/main/java/net/gensokyoreimagined/motoori/KosuzuUnderstandsEverything.java:158-162 | The language is stored unless the store fails, in which case nothing changes. |
| Storage.Database.AddMessage | src/main/java/net/gensokyoreimagined/motoori/KosuzuUnderstandsEverything.java:90 | The message is appended, and its id is its position. |

## Left out

- Regular-expression compilation and matching are a parameter (`FullMatch`). An invalid pattern, which makes `Pattern.compile` throw, and a pattern without a group 1, which makes `group(1)` throw, are not modelled.
- Packet transport (ProtocolLib registration, `PacketContainer`, `WrappedChatComponent`) is left out. A packet is a value held by its event, and rewriting it is assigning a new value.
- The Adventure JSON serialiser and the vanilla/Adventure conversion are left out. A component stands for its JSON, both serialisers are taken to be faithful, and the stored JSON is the component itself.
- Chat-type resolution through the server registry is a map from chat type to decoration rule. An absent key is a type that does not resolve.
- Hover and text colours, and the `Kosuzu.HEADER` prefix of the welcome, are left out. A component keeps only its text, children, hover text and click action.
- Geolocation is an input: the country code, null when unknown.
- A failing `setUserDefaultLanguage` is an input flag. The log line is left out.
- `player.sendMessage` is left out: the welcome lines are returned instead.
- Logging is left out.
- Concurrency is left out. The caches are plain `HashMap`s used by one thread at a time.
- Storage.Database.AddMessage: message ids are `UUID`s in the database; here they are positions in the message log, written in decimal. Only distinctness and the command format matter to the listener.
- `KosuzuRemembersEverything` is not part of this model. The database is reduced to what the listener reads and writes. Translations are a function of key and language, and the fallback for a null language is inside it.
- Text.Upper: `String.toUpperCase` is modelled for ASCII letters only. Locale-dependent and non-ASCII case mapping is left out.
- Game.PlainText: concatenates a component's text and its children's. Translatable, keybind and score components are left out.
