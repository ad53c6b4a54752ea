/**
 * The part of summarize_injuries_with_llm in app/tools.py that runs before
 * the language model is called: the short-circuit on an empty list and the
 * bullet lines handed to the model.
 */
module Summary {
  import opened Wrappers
  import opened State

  const NoInjuriesMessage := "No injuries were found in the current dataset."

  /** At most this many players are listed in the prompt. */
  const BulletLimit := 50

  /** Either the answer is known without the model, or the model is asked about these bullets. */
  datatype Summary = Answered(text: string) | Prompted(bullets: seq<string>)

  /** A reason is shown only when it is present and not the empty string (Python truthiness). */
  predicate HasReason(p: PlayerStatus) {
    p.reason.Some? && p.reason.value != ""
  }

  /** The part of every bullet: `- name: status`. */
  function BulletHead(p: PlayerStatus): string {
    "- " + p.playerName + ": " + p.status
  }

  /** One bullet line: the head, then ` (reason)` exactly when the player has a reason. */
  function BulletLine(p: PlayerStatus): (line: string)
    ensures |BulletHead(p)| <= |line|
    ensures line[..|BulletHead(p)|] == BulletHead(p)
    ensures HasReason(p) <==> |line| > |BulletHead(p)|
    ensures HasReason(p) ==> line[|BulletHead(p)|..] == " (" + p.reason.value + ")"
  {
    if HasReason(p) then BulletHead(p) + " (" + p.reason.value + ")" else BulletHead(p)
  }

  function Min(a: int, b: int): int {
    if a <= b then a else b
  }

  /**
   * An empty list is answered with the fixed message; otherwise one bullet per
   * leading player, in order, up to BulletLimit of them.
   */
  method SummarizeInjuries(players: seq<PlayerStatus>) returns (s: Summary)
    ensures s.Answered? <==> players == []
    ensures s.Answered? ==> s.text == NoInjuriesMessage
    ensures s.Prompted? ==> |s.bullets| == Min(BulletLimit, |players|)
    ensures s.Prompted? ==> forall k :: 0 <= k < |s.bullets| ==> s.bullets[k] == BulletLine(players[k])
  {
    if players == [] {
      return Answered(NoInjuriesMessage);
    }
    var listed := if |players| <= BulletLimit then players else players[..BulletLimit];
    var bulletLines: seq<string> := [];
    var i := 0;
    while i < |listed|
      invariant 0 <= i <= |listed|
      invariant |bulletLines| == i
      invariant forall k :: 0 <= k < i ==> bulletLines[k] == BulletLine(listed[k])
    {
      var p := listed[i];
      var line := BulletHead(p);
      if HasReason(p) {
        line := line + " (" + p.reason.value + ")";
      }
      bulletLines := bulletLines + [line];
      i := i + 1;
    }
    return Prompted(bulletLines);
  }
}
