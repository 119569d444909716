/**
 * The reaction bar under a post, as `updateReactionDisplay` rebuilds it from the server's
 * counts: one button per reaction type, always the same six in the same order.
 */
module ReactionsJs {
  /** One entry of the server's `reactions` object. */
  datatype ReactionInfo = ReactionInfo(count: int, userReacted: bool)

  /** What one button shows and does. */
  datatype Button = Button(kind: string, emoji: string, active: bool, count: int, showsCount: bool, postId: int)

  const ReactionTypes: seq<string> := ["like", "love", "celebrate", "idea", "fire", "applause"]

  /** The `emojis` table. */
  function Emoji(kind: string): string {
    match kind
    case "like" => "\U{1F44D}"
    case "love" => "\U{2764}\U{FE0F}"
    case "celebrate" => "\U{1F389}"
    case "idea" => "\U{1F4A1}"
    case "fire" => "\U{1F525}"
    case "applause" => "\U{1F44F}"
    case _ => ""
  }

  /** `reactions[type] || { count: 0, user_reacted: false }` */
  function InfoFor(reactions: map<string, ReactionInfo>, kind: string): (info: ReactionInfo)
    ensures kind in reactions ==> info == reactions[kind]
    ensures kind !in reactions ==> info.count == 0 && !info.userReacted
  {
    if kind in reactions then reactions[kind] else ReactionInfo(0, false)
  }

  /** The button for one type: active iff the user reacted, count shown iff positive. */
  function ButtonFor(postId: int, kind: string, reactions: map<string, ReactionInfo>): (b: Button)
    ensures b.kind == kind && b.postId == postId && b.emoji == Emoji(kind)
    ensures b.active <==> kind in reactions && reactions[kind].userReacted
    ensures b.showsCount <==> kind in reactions && reactions[kind].count > 0
    ensures b.count == if kind in reactions then reactions[kind].count else 0
  {
    var info := InfoFor(reactions, kind);
    Button(kind, Emoji(kind), info.userReacted, info.count, info.count > 0, postId)
  }

  /** The whole bar, type by type in the order of `reactionTypes`. */
  function Bar(postId: int, reactions: map<string, ReactionInfo>): seq<Button> {
    seq(|ReactionTypes|, k requires 0 <= k < |ReactionTypes| => ButtonFor(postId, ReactionTypes[k], reactions))
  }

  /**
   * Whatever the server sends, the bar holds six buttons for like, love, celebrate, idea,
   * fire and applause, in that order, and each toggles its own type on the same post.
   */
  lemma BarShape(postId: int, reactions: map<string, ReactionInfo>)
    ensures |Bar(postId, reactions)| == 6
    ensures forall k :: 0 <= k < 6 ==> Bar(postId, reactions)[k].kind == ReactionTypes[k]
    ensures forall k :: 0 <= k < 6 ==> Bar(postId, reactions)[k].postId == postId
    ensures Bar(postId, reactions)[0].kind == "like" && Bar(postId, reactions)[5].kind == "applause"
  {
  }

  /** A type the server left out shows as an inactive button without a count. */
  lemma MissingTypeShowsNothing(postId: int, reactions: map<string, ReactionInfo>, k: nat)
    requires k < 6 && ReactionTypes[k] !in reactions
    ensures !Bar(postId, reactions)[k].active && !Bar(postId, reactions)[k].showsCount
    ensures Bar(postId, reactions)[k].count == 0
  {
  }

  /** The post's `#reactions-<id>` element, holding the buttons it currently shows. */
  class ReactionContainer {
    var buttons: seq<Button>

    constructor ()
      ensures buttons == []
    {
      buttons := [];
    }
  }

  /**
   * `updateReactionDisplay`: without the container nothing happens; otherwise the buttons are
   * built one type after another and replace what the container showed.
   */
  method UpdateReactionDisplay(container: ReactionContainer?, postId: int, reactions: map<string, ReactionInfo>)
    modifies container
    ensures container != null ==> container.buttons == Bar(postId, reactions)
  {
    if container == null {
      return;
    }
    var html: seq<Button> := [];
    for i := 0 to |ReactionTypes|
      invariant |html| == i
      invariant forall k :: 0 <= k < i ==> html[k] == ButtonFor(postId, ReactionTypes[k], reactions)
    {
      html := html + [ButtonFor(postId, ReactionTypes[i], reactions)];
    }
    container.buttons := html;
  }
}
