/** The constructive agent of the colony (Ant.java). */
module Ants {
  import opened Clients

  /** Sum of a list of integers. */
  function Sum(s: seq<int>): int
  {
    if |s| == 0 then 0 else Sum(s[..|s| - 1]) + s[|s| - 1]
  }

  /**
   * An ant: remaining load capacity, the client it stands at, the clients it
   * has visited in order (its memory), and whether its route is complete.
   */
  class Ant {
    const id: int
    var capacity: int
    var currentClient: Client
    var memory: seq<Client>
    var finish: bool
    /** The capacity set at construction or by the last SetCapacity. */
    ghost var startCapacity: int
    /** The demands taken off by AddCurrentClient since then, in order. */
    ghost var charged: seq<int>

    /** Capacity accounting: what is left is the start capacity minus every demand charged since. */
    ghost predicate Valid()
      reads this`capacity, this`startCapacity, this`charged
    {
      capacity == startCapacity - Sum(charged)
    }

    /** A new ant stands at `currentClient`, remembers only it, and has the full capacity. */
    constructor (id: int, capacity: int, currentClient: Client)
      ensures this.id == id && this.capacity == capacity && this.currentClient == currentClient
      ensures memory == [currentClient] && !finish
      ensures Valid() && startCapacity == capacity && charged == []
    {
      this.id := id;
      this.capacity := capacity;
      this.currentClient := currentClient;
      memory := [currentClient];
      finish := false;
      startCapacity := capacity;
      charged := [];
    }

    /** Overwrites the capacity and restarts the accounting from it. */
    method SetCapacity(capacity: int)
      modifies this`capacity, this`startCapacity, this`charged
      ensures this.capacity == capacity
      ensures Valid() && startCapacity == capacity && charged == []
    {
      this.capacity := capacity;
      startCapacity := capacity;
      charged := [];
    }

    method SetMemory(memory: seq<Client>)
      modifies this`memory
      ensures this.memory == memory
    {
      this.memory := memory;
    }

    method SetFinish(finish: bool)
      modifies this`finish
      ensures this.finish == finish
    {
      this.finish := finish;
    }

    /**
     * Moves the ant to `currentClient`: it becomes the current client, is
     * appended to the memory, and its demand is taken off the capacity.
     */
    method AddCurrentClient(currentClient: Client)
      requires Valid()
      modifies this`currentClient, this`memory, this`capacity, this`charged
      ensures Valid() && charged == old(charged) + [currentClient.demand]
      ensures this.currentClient == currentClient
      ensures memory == old(memory) + [currentClient]
      ensures capacity == old(capacity) - currentClient.demand
    {
      this.currentClient := currentClient;
      memory := memory + [currentClient];
      capacity := capacity - currentClient.demand;
      charged := charged + [currentClient.demand];
      assert charged[..|charged| - 1] == old(charged);
    }
  }

  /** The ants of a colony carry their positions as ids, so no ant occurs twice. */
  predicate Numbered(ants: seq<Ant>)
  {
    forall k | 0 <= k < |ants| :: ants[k].id == k
  }
}
