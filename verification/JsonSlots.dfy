// The growing tables of pointers of an object or an array: add_array_value, add_object_pair and their
// growth by sixteen slots, in hypertext/libht/json.c.
module JsonSlots {

  const INITIAL_SIZE: nat := 16

  datatype Slot<T> = Empty | Full(value: T)

  // The allocator as a script of answers, which grants everything once the script is over. It counts its
  // refusals.
  class Memory {
    var script: seq<bool>
    var refused: nat

    constructor (script: seq<bool>)
      ensures this.script == script && refused == 0
    {
      this.script, refused := script, 0;
    }

    method Alloc() returns (granted: bool)
      modifies this
      ensures granted == (old(script) == [] || old(script)[0])
      ensures script == if old(script) == [] then [] else old(script)[1..]
      ensures refused == old(refused) + if granted then 0 else 1
    {
      granted := true;
      if script != [] {
        granted, script := script[0], script[1..];
      }
      if !granted {
        refused := refused + 1;
      }
    }
  }

  class Slots<T> {
    var slots: array<Slot<T>>
    ghost var contents: seq<T>

    // The taken slots come first, in the order they were taken.
    ghost predicate Valid()
      reads this, slots
    {
      && |contents| <= slots.Length
      && slots.Length % INITIAL_SIZE == 0
      && (forall i :: 0 <= i < |contents| ==> slots[i] == Full(contents[i]))
      && (forall i :: |contents| <= i < slots.Length ==> slots[i] == Empty)
    }

    constructor ()
      ensures Valid() && contents == [] && fresh(slots) && slots.Length == 0
    {
      slots := new Slot<T>[0];
      contents := [];
    }

    // Sixteen empty slots behind the old ones, or no change when the memory for them is refused.
    method Grow(memory: Memory) returns (ok: bool)
      requires Valid()
      modifies this, memory
      ensures Valid() && contents == old(contents) && memory.refused == old(memory.refused) + if ok then 0 else 1
      ensures !ok ==> slots == old(slots)
      ensures ok ==> fresh(slots) && slots.Length == old(slots.Length) + INITIAL_SIZE
    {
      ok := memory.Alloc();
      if !ok {
        return;
      }
      var old_ := slots;
      var more := new Slot<T>[old_.Length + INITIAL_SIZE](_ => Empty);
      var i := 0;
      while i < old_.Length
        invariant i <= old_.Length && slots == old_ && contents == old(contents)
        invariant forall j :: 0 <= j < i ==> more[j] == old_[j]
        invariant forall j :: i <= j < more.Length ==> more[j] == Empty
        invariant forall j :: 0 <= j < old_.Length ==> old_[j] == old(old_[j])
        modifies more
      {
        more[i] := old_[i];
        i := i + 1;
      }
      slots := more;
    }

    // The value takes the first empty slot, in a table that grows when it is full. When memory for the
    // new table or for the value is refused it is not added; the table may have grown all the same.
    method Add(memory: Memory, value: T) returns (added: bool)
      requires Valid()
      modifies this, slots, memory
      ensures Valid() && contents == old(contents) + if added then [value] else []
      ensures memory.refused == old(memory.refused) + if added then 0 else 1
      ensures slots == old(slots) || fresh(slots)
      ensures slots.Length == old(slots.Length) || slots.Length == old(slots.Length) + INITIAL_SIZE
      ensures added ==>
        slots.Length == old(slots.Length) + if |old(contents)| == old(slots.Length) then INITIAL_SIZE else 0
    {
      var i := 0;
      while i < slots.Length && slots[i].Full?
        invariant i <= |contents|
      {
        i := i + 1;
      }
      if i == slots.Length {
        added := Grow(memory);
        if !added {
          return;
        }
      }
      added := memory.Alloc();
      if added {
        slots[i] := Full(value);
        contents := contents + [value];
      }
    }

    // json_array_element and json_object_pair: nothing outside the table and in its empty slots.
    method Element(index: nat) returns (r: Slot<T>)
      requires Valid()
      ensures r == if index < |contents| then Full(contents[index]) else Empty
    {
      r := Empty;
      if index < slots.Length {
        r := slots[index];
      }
    }

    // The taken slots.
    method Values() returns (r: seq<T>)
      requires Valid()
      ensures r == contents
    {
      r := [];
      var i := 0;
      while i < slots.Length && slots[i].Full?
        invariant i <= |contents| && r == contents[..i]
      {
        r := r + [slots[i].value];
        i := i + 1;
      }
    }
  }
}
