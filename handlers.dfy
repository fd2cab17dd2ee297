/** The small input rules of the request handlers: the rating clamp of
    `create_rating`, the default skill name of `create_session` and the
    empty-message check of `send_message`. */
module Handlers {
  import opened Wrappers
  import opened Text

  /** `max(1, min(5, int(score)))`: the score stored for a rating. It always
      lies in 1..5, is the input when that is already in range, and is the
      nearer bound otherwise. */
  function ClampRating(score: int): (s: int)
    ensures 1 <= s <= 5
    ensures 1 <= score <= 5 ==> s == score
    ensures score < 1 ==> s == 1
    ensures score > 5 ==> s == 5
  {
    var upper := if 5 < score then 5 else score;
    if 1 > upper then 1 else upper
  }

  /** Clamping a stored score again changes nothing. */
  lemma ClampIdempotent(score: int)
    ensures ClampRating(ClampRating(score)) == ClampRating(score)
  {
  }

  /** A higher input never gives a lower stored score. */
  lemma ClampMonotone(a: int, b: int)
    requires a <= b
    ensures ClampRating(a) <= ClampRating(b)
  {
  }

  /** The name a session gets when its skill field is left blank. */
  const DefaultSkill: string := "Skill Exchange"

  /** `skill.strip() or "Skill Exchange"`: the stripped skill, or the default
      name when nothing is left after stripping. Either way the stored name is
      not empty and has no whitespace at its ends. */
  function SessionSkill(skill: string): (r: string)
    ensures Blank(skill) ==> r == DefaultSkill
    ensures !Blank(skill) ==> r == Strip(skill)
    ensures r != [] && !IsSpace(r[0]) && !IsSpace(r[|r| - 1])
  {
    var s := Strip(skill);
    if s != [] then s else DefaultSkill
  }

  datatype MessageError = EmptyMessage

  /** The check of `send_message`: content that is blank after stripping is
      refused ("Message cannot be empty."), anything else is stored
      stripped. A stored message is never empty and has no whitespace at its
      ends. */
  function MessageContent(content: string): (r: Result<string, MessageError>)
    ensures r.Err? <==> Blank(content)
    ensures r.Ok? ==> r.value == Strip(content)
    ensures r.Ok? ==> r.value != [] && !IsSpace(r.value[0]) && !IsSpace(r.value[|r.value| - 1])
  {
    var s := Strip(content);
    if s == [] then Err(EmptyMessage) else Ok(s)
  }
}
