/**
 Seeding a session in batches (scripts/runtime-first-token-benchmark.ts:302-328): entities go
 out in order, each command holding 1 to 256 of them and at most 512 KiB unless it is a single
 oversized one.
 */
module SessionSeed {
  import opened Sequences

  // `size` is the byte length of the entity's JSON plus two.
  datatype Entity = Entity(id: int, size: nat)

  const MAX_ENTITIES := 256
  const MAX_BYTES := 512 * 1024

  function Bytes(batch: seq<Entity>): nat {
    if batch == [] then 0 else Bytes(batch[..|batch| - 1]) + batch[|batch| - 1].size
  }

  /** A command the sidecar takes. */
  predicate Admissible(batch: seq<Entity>) {
    1 <= |batch| <= MAX_ENTITIES && (Bytes(batch) <= MAX_BYTES || |batch| == 1)
  }

  lemma AdmissibleMeans(batch: seq<Entity>)
    ensures Admissible(batch) <==> 1 <= |batch| <= 256 && (Bytes(batch) <= 524_288 || |batch| == 1)
  {
  }

  predicate AllAdmissible(commands: seq<seq<Entity>>) {
    forall i | 0 <= i < |commands| :: Admissible(commands[i])
  }

  lemma AllWithinLimits(commands: seq<seq<Entity>>)
    requires AllAdmissible(commands)
    ensures forall k | 0 <= k < |commands| ::
      1 <= |commands[k]| <= 256 && (Bytes(commands[k]) <= 524_288 || |commands[k]| == 1)
  {
  }

  function Flatten(commands: seq<seq<Entity>>): seq<Entity> {
    if commands == [] then [] else Flatten(commands[..|commands| - 1]) + commands[|commands| - 1]
  }

  /** The commands send the entities, all and in order. */
  ghost predicate Sends(commands: seq<seq<Entity>>, objects: seq<Entity>) {
    AllAdmissible(commands) && Flatten(commands) == objects
  }

  /** No admissible commands, at most as many, send more of the entities. */
  ghost predicate StaysAhead(commands: seq<seq<Entity>>, objects: seq<Entity>) {
    forall other | AllAdmissible(other) && Flatten(other) <= objects && |other| <= |commands| ::
      |Flatten(other)| <= |Flatten(commands)|
  }

  lemma {:induction false} BytesOfSlice(batch: seq<Entity>, i: nat, j: nat)
    requires i <= j <= |batch|
    ensures Bytes(batch[i..j]) <= Bytes(batch)
    decreases |batch|
  {
    if j < |batch| {
      BytesOfSlice(batch[..|batch| - 1], i, j);
      SliceOfTake(batch, |batch| - 1, i, j);
    } else if i < j {
      BytesOfSlice(batch[..|batch| - 1], i, j - 1);
      SliceOfTake(batch, |batch| - 1, i, j - 1);
      assert batch[i..j][..j - i - 1] == batch[i..j - 1];
    }
  }

  /** Part of an admissible batch is admissible. */
  lemma SliceIsAdmissible(batch: seq<Entity>, i: nat, j: nat)
    requires Admissible(batch) && i < j <= |batch|
    ensures Admissible(batch[i..j])
  {
    BytesOfSlice(batch, i, j);
  }

  lemma FlattenOne(commands: seq<seq<Entity>>, batch: seq<Entity>)
    ensures Flatten(commands + [batch]) == Flatten(commands) + batch
  {
    assert (commands + [batch])[..|commands|] == commands;
  }

  /** A batch that cannot take the next entity keeps the greedy commands ahead. */
  lemma FlushKeepsAhead(commands: seq<seq<Entity>>, batch: seq<Entity>, objects: seq<Entity>)
    requires StaysAhead(commands, objects) && batch != []
    requires Flatten(commands) + batch < objects
    requires !Admissible(batch + [objects[|Flatten(commands) + batch|]])
    ensures StaysAhead(commands + [batch], objects)
  {
    FlattenOne(commands, batch);
    forall other | AllAdmissible(other) && Flatten(other) <= objects && |other| <= |commands| + 1
      ensures |Flatten(other)| <= |Flatten(commands) + batch|
    {
      if |Flatten(other)| > |Flatten(commands) + batch| {
        NotFurther(commands, batch, objects, other);
      }
    }
  }

  lemma NotFurther(commands: seq<seq<Entity>>, batch: seq<Entity>, objects: seq<Entity>, other: seq<seq<Entity>>)
    requires StaysAhead(commands, objects) && batch != []
    requires Flatten(commands) + batch < objects
    requires AllAdmissible(other) && Flatten(other) <= objects && |other| <= |commands| + 1
    requires |Flatten(other)| > |Flatten(commands) + batch|
    ensures Admissible(batch + [objects[|Flatten(commands) + batch|]])
  {
    hide Bytes, Flatten, Admissible, StaysAhead, AllAdmissible;
    FlattenNonEmpty(other);
    var init, last := other[..|other| - 1], other[|other| - 1];
    LastAdmissible(other);
    PrefixOfPrefix(Flatten(init), last, objects);
    NoFurther(commands, objects, init);
    var skip := |Flatten(init)|;
    Covers(objects, Flatten(init), last, Flatten(commands), batch);
    SliceIsAdmissible(last, |Flatten(commands)| - skip, |Flatten(commands)| + |batch| + 1 - skip);
  }

  lemma LastAdmissible(commands: seq<seq<Entity>>)
    requires commands != [] && AllAdmissible(commands)
    ensures Admissible(commands[|commands| - 1]) && AllAdmissible(commands[..|commands| - 1])
  {
  }

  lemma FlattenNonEmpty(commands: seq<seq<Entity>>)
    requires |Flatten(commands)| > 0
    ensures commands != []
    ensures Flatten(commands) == Flatten(commands[..|commands| - 1]) + commands[|commands| - 1]
  {
  }

  lemma NoFurther(commands: seq<seq<Entity>>, objects: seq<Entity>, other: seq<seq<Entity>>)
    requires StaysAhead(commands, objects)
    requires AllAdmissible(other) && Flatten(other) <= objects && |other| <= |commands|
    ensures |Flatten(other)| <= |Flatten(commands)|
  {
  }

  lemma PrefixOfPrefix<T>(a: seq<T>, b: seq<T>, c: seq<T>)
    requires a + b <= c
    ensures a <= c
  {
    assert a == (a + b)[..|a|];
  }

  /** A batch that reaches past `done + batch` from before `done` holds that batch and the next entity. */
  lemma Covers(objects: seq<Entity>, before: seq<Entity>, last: seq<Entity>, done: seq<Entity>, batch: seq<Entity>)
    requires before + last <= objects && done + batch < objects
    requires |before| <= |done| && |before| + |last| > |done| + |batch|
    ensures last[|done| - |before|..|done| + |batch| + 1 - |before|] == batch + [objects[|done + batch|]]
  {
    var from, to := |done|, |done| + |batch|;
    SameSlice(objects, before, last, from, to + 1);
    SameSlice(objects, done, batch, from, to);
    assert objects[from..to + 1] == objects[from..to] + [objects[to]];
    Whole(batch);
  }

  lemma SameSlice(objects: seq<Entity>, before: seq<Entity>, batch: seq<Entity>, i: nat, j: nat)
    requires before + batch <= objects && |before| <= i <= j <= |before| + |batch|
    ensures batch[i - |before|..j - |before|] == objects[i..j]
  {
    assert objects[i..j] == (before + batch)[i..j];
  }

  /** Commands that stay ahead with entities left over need one more command, and so does anyone. */
  lemma LastCommandNeeded(commands: seq<seq<Entity>>, objects: seq<Entity>, other: seq<seq<Entity>>)
    requires StaysAhead(commands, objects) && |Flatten(commands)| < |objects|
    requires Sends(other, objects)
    ensures |commands| < |other|
  {
  }

  lemma FewestWithLast(commands: seq<seq<Entity>>, batch: seq<Entity>, objects: seq<Entity>)
    requires StaysAhead(commands, objects) && batch != [] && Flatten(commands) + batch == objects
    ensures forall other | Sends(other, objects) :: |commands + [batch]| <= |other|
  {
    hide StaysAhead, Sends, Flatten;
    forall other | Sends(other, objects)
      ensures |commands + [batch]| <= |other|
    {
      LastCommandNeeded(commands, objects, other);
    }
  }

  /** Sending one more command that the sidecar takes. */
  lemma CommandTaken(sidecar: Sidecar, commands: seq<seq<Entity>>, batch: seq<Entity>)
    requires AllAdmissible(commands) && AllTaken(sidecar, commands)
    requires Admissible(batch) && sidecar(|commands|, batch)
    ensures AllAdmissible(commands + [batch]) && AllTaken(sidecar, commands + [batch])
    ensures Flatten(commands + [batch]) == Flatten(commands) + batch
  {
    FlattenOne(commands, batch);
    hide Flatten, Admissible;
    forall k | 0 <= k < |commands| + 1
      ensures Admissible((commands + [batch])[k]) && sidecar(k, (commands + [batch])[k])
    {
      if k < |commands| { assert (commands + [batch])[k] == commands[k]; }
    }
  }

  lemma OneMore(batch: seq<Entity>, entity: Entity)
    ensures Bytes(batch + [entity]) == Bytes(batch) + entity.size && Bytes([]) == 0
  {
    assert (batch + [entity])[..|batch|] == batch;
  }

  lemma NothingSent(objects: seq<Entity>, sidecar: Sidecar)
    ensures Flatten([]) == [] && Bytes([]) == 0 && StaysAhead([], objects)
    ensures AllAdmissible([]) && AllTaken(sidecar, [])
  {
  }

  /** What the sidecar answers to command number `k`. */
  type Sidecar = (nat, seq<Entity>) -> bool

  /** The command that stopped the seeding: the next entities, in a command the sidecar should take but did not. */
  ghost predicate Refused(sidecar: Sidecar, commands: seq<seq<Entity>>, objects: seq<Entity>, batch: seq<Entity>) {
    Admissible(batch) && Flatten(commands) + batch <= objects && !sidecar(|commands|, batch)
  }

  ghost predicate AllTaken(sidecar: Sidecar, commands: seq<seq<Entity>>) {
    forall k | 0 <= k < |commands| :: sidecar(k, commands[k])
  }

  /**
   The greedy batches of the source, as the sidecar took them. Either everything was sent, in as
   few commands as possible, or one admissible command was refused.
   */
  method SeedSession(objects: seq<Entity>, sidecar: Sidecar)
    returns (commands: seq<seq<Entity>>, ok: bool, ghost refused: seq<Entity>)
    ensures AllAdmissible(commands) && Flatten(commands) <= objects && AllTaken(sidecar, commands)
    ensures forall k | 0 <= k < |commands| ::
      1 <= |commands[k]| <= 256 && (Bytes(commands[k]) <= 524_288 || |commands[k]| == 1)
    ensures ok ==> Sends(commands, objects)
    ensures ok ==> forall other | Sends(other, objects) :: |commands| <= |other|
    ensures !ok ==> Refused(sidecar, commands, objects, refused)
  {
    hide Bytes, Flatten, StaysAhead, AllAdmissible, AllTaken;
    commands, refused := [], [];
    NothingSent(objects, sidecar);
    var batch: seq<Entity> := [];
    var batchBytes := 0;
    for i := 0 to |objects|
      invariant AllAdmissible(commands) && (batch == [] || Admissible(batch)) && (i > 0 ==> batch != [])
      invariant Flatten(commands) + batch == objects[..i] && batchBytes == Bytes(batch)
      invariant StaysAhead(commands, objects) && (i == 0 ==> commands == []) && AllTaken(sidecar, commands)
    {
      var entity := objects[i];
      TakeLast(objects, i);
      OneMore(batch, entity);
      Assoc(Flatten(commands), batch, [entity]);
      if |batch| >= MAX_ENTITIES || batchBytes + entity.size > MAX_BYTES {
        if batch != [] {
          if !sidecar(|commands|, batch) {
            AllWithinLimits(commands);
            return commands, false, batch;
          }
          CommandTaken(sidecar, commands, batch);
          Assoc(Flatten(commands), batch, []);
          FlushKeepsAhead(commands, batch, objects);
          commands := commands + [batch];
          batch, batchBytes := [], 0;
          OneMore(batch, entity);
        }
      }
      batch := batch + [entity];
      batchBytes := batchBytes + entity.size;
    }
    Whole(objects);
    ok := true;
    if batch != [] {
      if !sidecar(|commands|, batch) {
        AllWithinLimits(commands);
        return commands, false, batch;
      }
      CommandTaken(sidecar, commands, batch);
      FewestWithLast(commands, batch, objects);
      commands := commands + [batch];
    }
    AllWithinLimits(commands);
  }
}
