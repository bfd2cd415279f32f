/** One repository that is shared by all who ask for it: initialised for the first one, closed after the last one. */
module SharedRepository {
  import opened Counting

  const MAX_USAGES: int := 32767

  type int16 = n: int | -32768 <= n <= MAX_USAGES

  /** The counter wraps around. */
  function Wrap(n: int): int16
    requires -32769 <= n <= 32768
  {
    if n > MAX_USAGES then n - 65536 else if n < -32768 then n + 65536 else n
  }

  class Provider {
    var usages: int16

    /** Whether the underlying repository has been initialised and not been closed since. */
    var initialised: bool

    /** For every handle whether it has been closed. */
    var handles: seq<bool>

    constructor ()
      ensures Valid() && handles == [] && !initialised
    {
      usages, initialised, handles := 0, false, [];
    }

    ghost function Live(): nat
      reads this
    {
      CountIf(handles, IsOpen())
    }

    /** The counter counts the live handles, and the repository is initialised exactly while there are any. */
    ghost predicate Valid()
      reads this
    {
      usages == Live() && (initialised <==> Live() > 0)
    }

    /** `Create`: it keeps the counter right exactly while there are fewer handles than a 16 bit integer can count. */
    method Create(initSucceeds: bool) returns (handle: nat, ok: bool)
      requires Valid()
      modifies this
      ensures ok == (old(Live()) > 0 || initSucceeds)
      ensures !ok ==> unchanged(this)
      ensures ok ==>
                handle == |old(handles)| && handles == old(handles) + [false] && Live() == old(Live()) + 1
                    && initialised
      ensures ok ==> (Valid() <==> old(Live()) < MAX_USAGES)
    {
      handle := 0;
      if usages == 0 {
        if !initSucceeds { return 0, false; }
        initialised := true;
      }
      CountIfAppend(handles, false, IsOpen());
      usages := Wrap(usages + 1);
      handle, handles, ok := |handles|, handles + [false], true;
    }

    /** `Close` on a handle, any number of times. The first time it lowers the counter, whatever closing the
        repository comes to; the panic is not reached. */
    method Close(handle: nat, closeSucceeds: bool) returns (ok: bool, panicked: bool)
      requires Valid() && handle < |handles|
      modifies this
      ensures Valid() && !panicked
      ensures handles == old(handles)[handle := true]
      ensures Live() == old(Live()) - (if old(handles)[handle] then 0 else 1)
      ensures ok == (closeSucceeds || old(handles)[handle] || Live() > 0)
    {
      CountIfUpdate(handles, handle, true, IsOpen());
      CountIfPositive(handles, IsOpen());
      if handles[handle] {
        assert handles[handle := true] == handles;
        return true, false;
      }
      assert IsOpen()(handles[handle]);
      usages := Wrap(usages - 1);
      handles := handles[handle := true];
      if usages < 0 { return false, true; }
      ok := true;
      if usages == 0 {
        initialised := false;
        ok := closeSucceeds;
      }
      panicked := false;
    }
  }
}
