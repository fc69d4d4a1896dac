/** HelloController: the greeting endpoint and the registration of the
    repeating client workers. */
module Controller {
  import opened Text
  import opened Strategies

  /** Java's `int`. */
  newtype int32 = x: int | -0x8000_0000 <= x < 0x8000_0000

  /** How many times `greeting` repeats its salutation. */
  const GreetingRepeats: nat := 20

  /** One salutation of the greeting. */
  function Salutation(username: string): string
  {
    "Hello " + username + "; "
  }

  /** The number of iterations of `for (int i = 0; i < count; i++)`. */
  function Iterations(count: int32): nat
  {
    if count < 0 then 0 else count as nat
  }

  /** The handles `n` workers receive when created from `start` on, in
      creation order. */
  function Handles(start: nat, n: nat): (hs: seq<nat>)
    ensures |hs| == n
    ensures forall k :: 0 <= k < n ==> hs[k] == start + k
  {
    if n == 0 then [] else Handles(start, n - 1) + [start + n - 1]
  }

  class HelloController {
    const testMethod: ClientTestMethod
    const count: int32
    /** The inter-iteration delay in milliseconds (configuration only). */
    const delayMillis: nat

    /** The `CompositeDisposable` registry: one handle per started worker. */
    var disposable: seq<nat>
    /** Handles are numbered in creation order; this is the next one. */
    var nextHandle: nat

    /** Every registered handle has been created, and the registry lists them
        in creation order without repetition. */
    ghost predicate Valid()
      reads this
    {
      && (forall k :: 0 <= k < |disposable| ==> disposable[k] < nextHandle)
      && (forall j, k :: 0 <= j < k < |disposable| ==> disposable[j] < disposable[k])
    }

    constructor (testMethod: ClientTestMethod, count: int32, delayMillis: nat)
      ensures Valid()
      ensures this.testMethod == testMethod && this.count == count && this.delayMillis == delayMillis
      ensures disposable == [] && nextHandle == 0
    {
      this.testMethod := testMethod;
      this.count := count;
      this.delayMillis := delayMillis;
      disposable := [];
      nextHandle := 0;
    }

    /** `greeting`: twenty salutations, built up in a string builder. */
    method Greeting(username: string) returns (greeting: string)
      ensures greeting == Repeat(Salutation(username), GreetingRepeats)
      ensures |greeting| == GreetingRepeats * (|username| + 8)
      ensures IsRepetition(greeting, Salutation(username), GreetingRepeats)
    {
      var sb := "";
      for i := 0 to GreetingRepeats
        invariant sb == Repeat(Salutation(username), i)
      {
        sb := sb + "Hello ";
        sb := sb + username;
        sb := sb + "; ";
      }
      greeting := sb;
      RepeatIsRepetition(Salutation(username), GreetingRepeats);
    }

    /** Subscribing `testMethod.get(client)` with repetition creates a new
        disposable handle. */
    method Subscribe() returns (h: nat)
      modifies this`nextHandle
      ensures h == old(nextHandle) && nextHandle == h + 1
    {
      h := nextHandle;
      nextHandle := nextHandle + 1;
    }

    /** `startLoop`: start `count` workers, registering each handle right
        after creating it. */
    method StartLoop()
      requires Valid()
      modifies this
      ensures Valid()
      ensures disposable == old(disposable) + Handles(old(nextHandle), Iterations(count))
      ensures nextHandle == old(nextHandle) + Iterations(count)
    {
      var i: int32 := 0;
      while i < count
        invariant 0 <= i as int <= Iterations(count)
        invariant nextHandle == old(nextHandle) + i as int
        invariant disposable == old(disposable) + Handles(old(nextHandle), i as nat)
        invariant Valid()
      {
        var d := Subscribe();
        disposable := disposable + [d];
        i := i + 1;
      }
    }
  }
}
