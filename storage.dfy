/**
  The database the listener talks to (KosuzuRemembersEverything), reduced to
  the state the listener's decisions depend on: the known players, their
  default languages, the stored messages, the supported language codes and
  the translation table. Its SQL, its identifiers and its failure modes other
  than a failed language update are not part of this model.
 */
module Storage {
  import opened Wrappers
  import opened Game

  /** A stored message's identifier: its position in the message store. */
  type MessageId = nat

  /** A stored message: the JSON of what was shown and the plain text to translate. */
  datatype StoredMessage = StoredMessage(json: Component, plainText: string)

  class Database {
    /** Players seen before. */
    var users: set<Uuid>
    /** Each player's stored default language code. */
    var defaultLanguages: map<Uuid, string>
    /** The messages stored so far, in order. */
    var messages: seq<StoredMessage>
    /** `getLanguages()`: the supported language codes, in enumeration order. */
    const languages: seq<string>
    /** `getTranslation(key, language)`, with its own fallback for a null or unknown language. */
    const translations: (string, Option<string>) -> string

    constructor(languages: seq<string>, translations: (string, Option<string>) -> string)
      ensures users == {} && defaultLanguages == map[] && messages == []
      ensures this.languages == languages && this.translations == translations
    {
      users := {};
      defaultLanguages := map[];
      messages := [];
      this.languages := languages;
      this.translations := translations;
    }

    /** `isNewUser`: whether the player is seen for the first time; records the player. */
    method IsNewUser(uuid: Uuid, name: string) returns (isNew: bool)
      modifies this`users
      ensures isNew <==> uuid !in old(users)
      ensures users == old(users) + {uuid}
    {
      isNew := uuid !in users;
      users := users + {uuid};
    }

    /**
      `setUserDefaultLanguage`: stores the player's default language, or
      throws when the storage fails (`fails`, an outcome of the storage).
     */
    method SetUserDefaultLanguage(uuid: Uuid, code: string, fails: bool) returns (ok: bool)
      modifies this`defaultLanguages
      ensures ok <==> !fails
      ensures defaultLanguages == if fails then old(defaultLanguages) else old(defaultLanguages)[uuid := code]
    {
      ok := !fails;
      if ok {
        defaultLanguages := defaultLanguages[uuid := code];
      }
    }

    /** `addMessage`: stores a message and returns its identifier. */
    method AddMessage(json: Component, plainText: string) returns (id: MessageId)
      modifies this`messages
      ensures id == |old(messages)|
      ensures messages == old(messages) + [StoredMessage(json, plainText)]
    {
      id := |messages|;
      messages := messages + [StoredMessage(json, plainText)];
    }

    /** `getUserDefaultLanguage`: the stored default language, null when unset. */
    function GetUserDefaultLanguage(uuid: Uuid): Option<string>
      reads this
    {
      if uuid in defaultLanguages then Some(defaultLanguages[uuid]) else None
    }

    /** `getTranslation`: the localised text of `key`. */
    function GetTranslation(key: string, language: Option<string>): string
    {
      translations(key, language)
    }
  }
}
