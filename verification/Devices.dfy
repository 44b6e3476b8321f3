/**
 Physical memory devices (src/mm-memphy.c): page-sized frames of bytes, a list
 of free frames and the list of frames used by the kernel.
 */
module Devices {
  import opened Basics

  const PAGESZ: nat := 4096

  type Byte = b: int | 0 <= b < 256

  datatype Device = Device(pages: seq<seq<Byte>>, free: seq<nat>, used: seq<nat>)

  /** Every frame holds one page of bytes. */
  ghost predicate Paged(d: Device) {
    forall f :: 0 <= f < |d.pages| ==> |d.pages[f]| == PAGESZ
  }

  function PageAt(d: Device, f: nat): (r: seq<Byte>) {
    if f < |d.pages| then d.pages[f] else []
  }

  function SetPage(d: Device, f: nat, page: seq<Byte>): (r: Device) {
    if f < |d.pages| then d.(pages := d.pages[f := page]) else d
  }

  function ByteAt(d: Device, f: nat, off: nat): (r: Option<Byte>) {
    if f < |d.pages| && off < |d.pages[f]| then Some(d.pages[f][off]) else None
  }

  function SetByte(d: Device, f: nat, off: nat, b: Byte): (r: Device) {
    if f < |d.pages| && off < |d.pages[f]| then
      var page: seq<Byte> := d.pages[f][off := b];
      SetPage(d, f, page)
    else d
  }

  /** MEMPHY_get_freefp: take the head of the free list. */
  function Pop(d: Device): (r: Device)
    requires d.free != []
  {
    d.(free := d.free[1..])
  }

  /** MEMPHY_put_freefp: put a frame at the head of the free list. */
  function Push(d: Device, f: nat): (r: Device) {
    d.(free := [f] + d.free)
  }
}
