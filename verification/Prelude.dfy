/** Types shared by the modules. */
module Prelude {
  datatype Option<+T> = None | Some(value: T) {
    function GetOr(default: T): T {
      if Some? then value else default
    }
  }

  /** uint8_t, and a run of them in memory. */
  type byte = x: nat | x < 256
  type Bytes = seq<byte>

  const TWO_TO_THE_64: nat := 0x1_0000_0000_0000_0000

  /** uint64_t and size_t. */
  type uint64 = x: nat | x < TWO_TO_THE_64

  /** The pieces one after the other. */
  function Concat(pieces: seq<Bytes>): Bytes
  {
    if pieces == [] then [] else pieces[0] + Concat(pieces[1..])
  }

  /** The objects that are allocated: calloc() adds one. */
  type Live = set<object>

  /** free() may be called only on an allocated object, and so only once. */
  ghost function Free(live: Live, o: object): Live
    requires o in live
  {
    live - {o}
  }

  /** The allocated objects, and those that a teardown has freed, in this order. */
  datatype Memory = Memory(live: Live, freed: seq<object>)

  ghost function Release(m: Memory, o: object): Memory
    requires o in m.live
  {
    Memory(Free(m.live, o), m.freed + [o])
  }
}
