/**
 A core's private cache over a region of memory. Nothing keeps the copies of different cores
 coherent: lines are filled on demand, may be evicted at any time, and reach memory only through an
 eviction of a dirty line or an explicit write-back.
 */
module Coherence {

  datatype Line<V> = Absent | Present(val: V, dirty: bool)

  predicate IsDirty<V>(line: Line<V>) {
    line.Present? && line.dirty
  }

  /** What a load of this line returns. */
  function Seen<V>(memory: V, line: Line<V>): V {
    if line.Present? then line.val else memory
  }

  function Fill<V>(memory: V, line: Line<V>): Line<V> {
    if line.Present? then line else Present(memory, false)
  }

  /** Memory after the line was evicted or written back. */
  function Flushed<V>(memory: V, line: Line<V>): V {
    if IsDirty(line) then line.val else memory
  }

  function Cleaned<V>(line: Line<V>): Line<V> {
    if line.Present? then line.(dirty := false) else line
  }

  function InvalidateRegion<V>(cache: seq<Line<V>>): seq<Line<V>> {
    seq(|cache|, _ => Absent)
  }

  function FlushRegion<V>(memory: seq<V>, cache: seq<Line<V>>): seq<V>
    requires |memory| == |cache|
  {
    seq(|cache|, i requires 0 <= i < |cache| => Flushed(memory[i], cache[i]))
  }

  function CleanRegion<V>(cache: seq<Line<V>>): seq<Line<V>> {
    seq(|cache|, i requires 0 <= i < |cache| => Cleaned(cache[i]))
  }
}
