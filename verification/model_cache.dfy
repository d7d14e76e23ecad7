/**
 * get_model: the process-wide slot for the trained network, filled lazily from
 * the model file on the first call that finds the file, and never reloaded.
 * Whether the file exists and what loading it yields are inputs.
 */
module ModelCache {
  import opened Wrappers

  /** One call of get_model: the slot afterwards, what the call returns, and whether it loaded the file. */
  datatype Lookup<M> = Lookup(slot: Option<M>, returned: Option<M>, loaded: bool)

  function GetModel<M>(slot: Option<M>, fileExists: bool, onDisk: M): (s: Lookup<M>)
    ensures s.returned == s.slot
    ensures s.loaded <==> slot.None? && fileExists
    ensures slot.Some? ==> s.slot == slot
    ensures slot.None? ==> s.slot == (if fileExists then Some(onDisk) else None)
  {
    if slot.None? && fileExists then Lookup(Some(onDisk), Some(onDisk), true)
    else Lookup(slot, slot, false)
  }

  /** The slot after a series of calls, and how many of them loaded the file. */
  datatype Run<M> = Run(slot: Option<M>, loads: nat)

  /** Calls get_model once per entry of `fileExists`, which says whether the file was there at that call. */
  function Replay<M>(slot: Option<M>, fileExists: seq<bool>, onDisk: M): Run<M>
    decreases |fileExists|
  {
    if fileExists == [] then Run(slot, 0)
    else
      var s := GetModel(slot, fileExists[0], onDisk);
      var rest := Replay(s.slot, fileExists[1..], onDisk);
      Run(rest.slot, rest.loads + (if s.loaded then 1 else 0))
  }

  /**
   * However many requests arrive, the file is loaded at most once: never when
   * the slot is already filled (which then stays as it is), and once exactly
   * when the slot starts empty and some call finds the file.
   */
  lemma {:induction false} LoadsAtMostOnce<M>(slot: Option<M>, fileExists: seq<bool>, onDisk: M)
    ensures Replay(slot, fileExists, onDisk).loads <= 1
    ensures slot.Some? ==> Replay(slot, fileExists, onDisk) == Run(slot, 0)
    ensures slot.None? ==>
              (Replay(slot, fileExists, onDisk).loads == 1 <==> true in fileExists) &&
              (Replay(slot, fileExists, onDisk).slot == if true in fileExists then Some(onDisk) else None)
    decreases |fileExists|
  {
    if fileExists != [] {
      var s := GetModel(slot, fileExists[0], onDisk);
      LoadsAtMostOnce(s.slot, fileExists[1..], onDisk);
      assert fileExists == [fileExists[0]] + fileExists[1..];
    }
  }

  /** The global `model` of the server process. */
  class Cache<M> {
    var model: Option<M>
    /** How many times the model file has been loaded. */
    ghost var loads: nat

    ghost predicate Valid()
      reads this
    {
      loads <= 1 && (model.Some? <==> loads == 1)
    }

    /** model = None at start-up. */
    constructor ()
      ensures Valid() && model == None && loads == 0
    {
      model := None;
      loads := 0;
    }

    /** get_model(): loads the file only when the slot is empty and the file exists. */
    method Get(fileExists: bool, onDisk: M) returns (m: Option<M>)
      requires Valid()
      modifies this
      ensures Valid()
      ensures var s := GetModel(old(model), fileExists, onDisk);
              model == s.slot && m == s.returned &&
              loads == old(loads) + (if s.loaded then 1 else 0)
    {
      if model.None? {
        if fileExists {
          model := Some(onDisk);
          loads := loads + 1;
        }
      }
      m := model;
    }
  }
}
