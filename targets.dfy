/** The allow-list-with-fallback rule both controllers apply to the
    `target` request parameter: a listed value is kept, anything else
    (including an absent parameter) is replaced by a fixed default. */
module Targets {
  import opened Wrappers

  /** The effective target for the raw parameter `raw`. */
  function Normalize(raw: Option<string>, allowed: seq<string>, fallback: string): (t: string)
    ensures raw.Some? && raw.value in allowed ==> t == raw.value
    ensures !(raw.Some? && raw.value in allowed) ==> t == fallback
  {
    if raw.Some? && raw.value in allowed then raw.value else fallback
  }

  /** With the default itself allowed, the effective target is always allowed. */
  lemma NormalizeAllowed(raw: Option<string>, allowed: seq<string>, fallback: string)
    requires fallback in allowed
    ensures Normalize(raw, allowed, fallback) in allowed
  {
  }

  /** With the default itself allowed, normalising an effective target changes nothing. */
  lemma NormalizeIdempotent(raw: Option<string>, allowed: seq<string>, fallback: string)
    requires fallback in allowed
    ensures Normalize(Some(Normalize(raw, allowed, fallback)), allowed, fallback)
            == Normalize(raw, allowed, fallback)
  {
  }
}
