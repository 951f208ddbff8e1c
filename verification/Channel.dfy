/** Go channels. */
module Channel {

  /** A channel with everything sent on it. Sending on a closed channel, or closing it again, panics:
      callers must not. */
  class Chan<T> {
    var sent: seq<T>
    var closed: bool
    /** Tells apart the channels of one owner. */
    ghost const tag: nat

    constructor (ghost tag: nat := 0)
      ensures sent == [] && !closed && this.tag == tag
    {
      sent, closed := [], false;
      this.tag := tag;
    }

    method Send(v: T)
      requires !closed
      modifies this`sent
      ensures sent == old(sent) + [v]
    {
      sent := sent + [v];
    }

    method Close()
      requires !closed
      modifies this`closed
      ensures closed
    {
      closed := true;
    }
  }
}
