/**
  The host game's values that the plugin reads: players and chat components.
  A component stands for the JSON it serialises to; the serialisers of the
  Adventure library are taken to be faithful encodings of this tree.
 */
module Game {
  import opened Wrappers
  import opened Text

  /** A player's unique id (java.util.UUID). */
  type Uuid = int

  /** The player a packet is sent to, or who joins. */
  datatype Player = Player(uuid: Uuid, name: string)

  /** The token that configured patterns and the welcome text use for the player's name. */
  const UsernamePlaceholder := "%username%"

  /** What a click on a chat component does. */
  datatype ClickEvent = RunCommand(command: string)

  /**
    A chat component: its own text, its children in order, and the hover text
    and click action attached to it (colours and other styling are left out).
   */
  datatype Component = Component(
    content: string,
    children: seq<Component>,
    hover: Option<string>,
    click: Option<ClickEvent>)

  /** `Component.text(s)` and vanilla `Component.literal(s)`: a bare text component. */
  function Literal(s: string): Component
  {
    Component(s, [], None, None)
  }

  /**
    `PlainTextComponentSerializer.serialize` and vanilla `getString()`: the
    component's text followed by the plain text of its children, in order.
   */
  function PlainText(c: Component): string
    decreases c
  {
    c.content + Join(seq(|c.children|, i requires 0 <= i < |c.children| => PlainText(c.children[i])), [])
  }
}
