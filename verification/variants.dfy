/** The call-automation loop exists in two drifted copies. */
module Variants {

  /** `Base` is the copy in content.js: the trigger accepts Live Call and
      long Dialing only, `startLoop` has no guard against a second call, the
      click primitive refuses disabled targets, and a typed delay is
      `Math.max(0, parseInt(...))`.

      `WrapUp` is the copy shared by main.js and extension/main.js: the
      trigger also accepts Wrap Up, an Agent Call in Wrap Up gets a
      zero-length countdown, `startLoop` is guarded, the click primitive
      does not look at disabled state, and a typed delay is
      `parseInt(...) || 3`. */
  datatype Variant = Base | WrapUp
}
