/** The small part of the browser's document model that the menu and scroll
    behaviours read and write. Selector matching, layout and event dispatch are
    not modelled: their results are passed in as plain values. */
module Dom {

  datatype Option<T> = None | Some(value: T)

  /** Identity of a node in the document tree; the tree itself is given as a
      map from a node to its parent node. */
  type NodeId = nat

  /** The integer part of a bounding client rectangle: the distance from the
      top of the viewport, and the rendered height. */
  datatype Rect = Rect(top: int, height: nat)

  /** An element that the scroll behaviour touches: a scroll target, or a
      heading inside one. */
  class Element {
    /** Lower-case tag name, fixed for the element's lifetime. */
    const tag: string
    var classes: set<string>
    var attributes: map<string, string>
    /** The element's bounding rectangle at the moment it is read. */
    var rect: Rect
    /** How many highlight-cleanup `animationend` listeners are currently
        registered (the only listeners the model registers on an element). */
    var animationEndListeners: nat

    constructor (tag: string, classes: set<string>, attributes: map<string, string>, rect: Rect)
      ensures this.tag == tag && this.classes == classes && this.attributes == attributes
      ensures this.rect == rect && animationEndListeners == 0
    {
      this.tag := tag;
      this.classes := classes;
      this.attributes := attributes;
      this.rect := rect;
      animationEndListeners := 0;
    }
  }
}
