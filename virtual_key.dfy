/**
 * Java's 32-bit int, and the wrap-around of its addition.
 */
module Int32 {
  const MIN: int := -0x8000_0000
  const MAX: int := 0x7fff_ffff

  newtype int32 = x: int | -0x8000_0000 <= x < 0x8000_0000

  /** The int result of a + b: the mathematical sum brought back into range modulo 2^32. */
  function Add(a: int32, b: int32): (r: int32)
    ensures MIN <= a as int + b as int <= MAX ==> r as int == a as int + b as int
    ensures (r as int - (a as int + b as int)) % 0x1_0000_0000 == 0
  {
    var s := a as int + b as int;
    if s > MAX then (s - 0x1_0000_0000) as int32
    else if s < MIN then (s + 0x1_0000_0000) as int32
    else s as int32
  }
}

/**
 * A game action bound to physical keys (convcomm/engine/input/VirtualKey.java):
 * it counts presses, and getAmount reports and consumes them according to the
 * key's behavior.
 */
module VirtualKeys {
  import opened Int32

  /** RAPID_FIRE reports a held key on every check; INITIAL_PRESS_ONLY reports it once until released. */
  datatype Behavior = RapidFire | InitialPressOnly

  datatype State = Released | Pressed | WaitingForRelease

  /** The mutable part of a key: its press count and its state. */
  datatype Key = Key(amount: int32, state: State)

  /** The state reset gives: released, no presses. */
  const Fresh: Key := Key(0, Released)

  /** A key waits for release only after INITIAL_PRESS_ONLY consumed its presses. */
  predicate Consistent(behavior: Behavior, k: Key)
  {
    k.state == WaitingForRelease ==> k.amount == 0 && behavior == InitialPressOnly
  }

  /** press(n): counts n more presses and marks the key pressed, unless it waits for release. */
  function AfterPress(k: Key, n: int32): Key
  {
    if k.state != WaitingForRelease then Key(Add(k.amount, n), Pressed) else k
  }

  /** release(): the key is released; the count is kept for the next check. */
  function AfterRelease(k: Key): Key
  {
    k.(state := Released)
  }

  /**
   * getAmount(): the count before the call, and the key afterwards; a released
   * key's count is consumed, and so is a held INITIAL_PRESS_ONLY key's, which
   * then waits for release.
   */
  function AfterCheck(behavior: Behavior, k: Key): (int32, Key)
  {
    if k.amount == 0 then (k.amount, k)
    else if k.state == Released then (k.amount, Key(0, k.state))
    else if behavior == InitialPressOnly then (k.amount, Key(0, WaitingForRelease))
    else (k.amount, k)
  }

  class VirtualKey {
    const name: string
    const behavior: Behavior
    var amount: int32
    var state: State

    predicate Valid()
      reads this
    {
      Consistent(behavior, Key(amount, state))
    }

    function Snapshot(): Key
      reads this
    {
      Key(amount, state)
    }

    /** A key with the given behavior, reset. */
    constructor (name: string, behavior: Behavior)
      ensures Valid() && this.name == name && this.behavior == behavior
      ensures Snapshot() == Fresh
    {
      this.name := name;
      this.behavior := behavior;
      amount := 0;
      state := Released;
    }

    /** A RAPID_FIRE key. */
    constructor RapidFireKey(name: string)
      ensures Valid() && this.name == name && behavior == RapidFire
      ensures Snapshot() == Fresh
    {
      this.name := name;
      behavior := RapidFire;
      amount := 0;
      state := Released;
    }

    method Reset()
      modifies this
      ensures Valid() && Snapshot() == Fresh
    {
      state := Released;
      amount := 0;
    }

    method Press(n: int32)
      requires Valid()
      modifies this
      ensures Valid() && Snapshot() == AfterPress(old(Snapshot()), n)
    {
      if state != WaitingForRelease {
        amount := Add(amount, n);
        state := Pressed;
      }
    }

    /** press(): one press. */
    method PressOnce()
      requires Valid()
      modifies this
      ensures Valid() && Snapshot() == AfterPress(old(Snapshot()), 1)
    {
      Press(1);
    }

    method Release()
      requires Valid()
      modifies this
      ensures Valid() && Snapshot() == AfterRelease(old(Snapshot()))
    {
      state := Released;
    }

    /** press() then release(). */
    method Tap()
      requires Valid()
      modifies this
      ensures Valid() && Snapshot() == AfterRelease(AfterPress(old(Snapshot()), 1))
    {
      PressOnce();
      Release();
    }

    method GetAmount() returns (r: int32)
      requires Valid()
      modifies this
      ensures Valid() && (r, Snapshot()) == AfterCheck(behavior, old(Snapshot()))
    {
      var retVal := amount;
      if amount != 0 {
        if state == Released {
          amount := 0;
        } else if behavior == InitialPressOnly {
          state := WaitingForRelease;
          amount := 0;
        }
      }
      return retVal;
    }

    /** getAmount() != 0, with getAmount's effect on the key. */
    method IsPressed() returns (b: bool)
      requires Valid()
      modifies this
      ensures Valid() && b == (old(amount) != 0)
      ensures Snapshot() == AfterCheck(behavior, old(Snapshot())).1
    {
      var a := GetAmount();
      return a != 0;
    }
  }

  /** Every operation keeps a consistent key consistent. */
  lemma OperationsKeepConsistent(behavior: Behavior, k: Key, n: int32)
    requires Consistent(behavior, k)
    ensures Consistent(behavior, AfterPress(k, n))
    ensures Consistent(behavior, AfterRelease(k))
    ensures Consistent(behavior, AfterCheck(behavior, k).1)
  {
  }

  /**
   * A check reports what was counted: the count before it, and the count it
   * leaves is either that count (a held RAPID_FIRE key, or none at all) or 0.
   */
  lemma CheckReports(behavior: Behavior, k: Key)
    requires Consistent(behavior, k)
    ensures AfterCheck(behavior, k).0 == k.amount
    ensures var k' := AfterCheck(behavior, k).1;
      k'.amount == 0 || (k' == k && k.state == Pressed && behavior == RapidFire)
  {
  }

  /** Pressing a key that is not waiting for release counts n presses and holds it. */
  lemma PressCounts(k: Key, n: int32)
    requires k.state != WaitingForRelease
    requires MIN <= k.amount as int + n as int <= MAX
    ensures AfterPress(k, n) == Key((k.amount as int + n as int) as int32, Pressed)
  {
  }

  /** release() never loses presses: the next check still reports them, and then consumes them. */
  lemma ReleaseKeepsCount(behavior: Behavior, k: Key)
    ensures AfterCheck(behavior, AfterRelease(k)).0 == k.amount
    ensures AfterCheck(behavior, AfterRelease(k)).1 == Key(0, Released)
  {
  }

  /** tap() on a key not waiting for release adds one press and leaves it released. */
  lemma TapAddsOne(k: Key)
    requires k.state != WaitingForRelease && k.amount as int < MAX
    ensures AfterRelease(AfterPress(k, 1)) == Key((k.amount as int + 1) as int32, Released)
  {
  }

  /** A held RAPID_FIRE key reports the same count on every check. */
  lemma RapidFireRepeats(k: Key)
    requires k.state == Pressed
    ensures AfterCheck(RapidFire, k) == (k.amount, k)
  {
  }

  /**
   * Once a held INITIAL_PRESS_ONLY key has been reported, presses are ignored
   * and checks report 0 until it is released; after release it counts again.
   */
  lemma InitialPressOnlyOnce(k: Key, n: int32, m: int32)
    requires k.state == Pressed && k.amount != 0
    ensures var (v, k1) := AfterCheck(InitialPressOnly, k);
      && v == k.amount
      && AfterPress(k1, n) == k1
      && AfterCheck(InitialPressOnly, k1) == (0, k1)
      && AfterPress(AfterRelease(k1), m) == Key(m, Pressed)
  {
  }
}
