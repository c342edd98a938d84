/** Addresses of the pointers that chain up a queue of qemu-queue.h. */
module Links {
  /** The head's first pointer, or the next pointer of an element. */
  datatype Loc<H, N> = FirstOf(head: H) | NextOf(node: N)

  /** The address of the pointer that points at position `i` of queue `s`. */
  function LocAt<H, N>(head: H, s: seq<N>, i: nat): Loc<H, N>
    requires i <= |s|
  {
    if i == 0 then FirstOf(head) else NextOf(s[i - 1])
  }
}
