/** aegis/internal/service/service_rate_limit.go: the circular buffer of recent violations. */
module Violations {
  import opened Text

  datatype Violation = Violation(configId: nat, kind: string, target: string, requestCount: int, threshold: int)

  /** The n newest elements of a log, newest first. */
  function Newest<T>(log: seq<T>, n: nat): (r: seq<T>)
    requires n <= |log|
    ensures |r| == n && forall i | 0 <= i < n :: r[i] == log[|log| - 1 - i]
  {
    seq(n, i requires 0 <= i < n => log[|log| - 1 - i])
  }

  /** Where the record made `age` records ago lies in a buffer of n slots whose next slot is `index`. */
  function Slot(index: int, age: int, n: int): (i: int)
    requires 0 <= index < n && 0 <= age < n
    ensures 0 <= i < n
  {
    if age < index then index - 1 - age else index - 1 - age + n
  }

  /** The buffer holds the last n records of the log, each where its age says, and nothing else. */
  ghost predicate Holds<T>(buffer: seq<Option<T>>, index: int, log: seq<T>)
  {
    0 <= index < |buffer| &&
    forall age | 0 <= age < |buffer| :: SlotHolds(buffer, index, log, age)
  }

  ghost predicate SlotHolds<T>(buffer: seq<Option<T>>, index: int, log: seq<T>, age: int)
    requires 0 <= index < |buffer| && 0 <= age < |buffer|
  {
    buffer[Slot(index, age, |buffer|)] == if age < |log| then Some(log[|log| - 1 - age]) else None
  }

  lemma Forward(i: int, n: int)
    requires 0 <= i < n
    ensures (i + 1) % n == if i + 1 == n then 0 else i + 1
  {
  }

  lemma Backward(i: int, n: int)
    requires 0 <= i < n
    ensures (i - 1 + n) % n == if i == 0 then n - 1 else i - 1
  {
    if i > 0 { assert i - 1 + n == n + (i - 1); }
  }

  /** Going back one slot goes to the next older record, and after n steps to the newest again. */
  lemma Older(index: int, age: int, n: int)
    requires 0 <= index < n && 0 <= age < n
    ensures (Slot(index, age, n) - 1 + n) % n == Slot(index, if age + 1 == n then 0 else age + 1, n)
    ensures age > 0 ==> Slot(index, age, n) != Slot(index, 0, n)
  {
    Backward(Slot(index, age, n), n);
  }

  lemma RecordHolds<T>(buffer: seq<Option<T>>, index: int, log: seq<T>, x: T)
    requires Holds(buffer, index, log)
    ensures Holds(buffer[index := Some(x)], (index + 1) % |buffer|, log + [x])
  {
    var n, buffer', index', log' := |buffer|, buffer[index := Some(x)], (index + 1) % |buffer|, log + [x];
    Forward(index, n);
    forall age | 0 <= age < n ensures SlotHolds(buffer', index', log', age) {
      if age > 0 {
        assert Slot(index', age, n) == Slot(index, age - 1, n) != index;
        assert SlotHolds(buffer, index, log, age - 1);
      }
    }
  }

  lemma NewestNext<T>(log: seq<T>, n: nat)
    requires n < |log|
    ensures Newest(log, n) + [log[|log| - 1 - n]] == Newest(log, n + 1)
  {
  }

  class ViolationLog {
    const violations: array<Option<Violation>>
    const maxViolations: int
    var violationIndex: int
    /** Everything ever recorded, oldest first. */
    ghost var log: seq<Violation>

    ghost predicate Valid()
      reads this, violations
    {
      violations.Length == maxViolations && Holds(violations[..], violationIndex, log)
    }

    constructor (capacity: int)
      requires capacity > 0
      ensures Valid() && fresh(violations) && maxViolations == capacity && log == []
    {
      violations := new Option<Violation>[capacity](_ => None);
      maxViolations, violationIndex, log := capacity, 0, [];
      new;
      forall age | 0 <= age < capacity ensures SlotHolds(violations[..], 0, [], age) {}
    }

    /** recordViolation. */
    method RecordViolation(configId: nat, kind: string, target: string, threshold: int)
      requires Valid()
      modifies this, violations
      ensures Valid()
      ensures log == old(log) + [Violation(configId, kind, target, threshold + 1, threshold)]
    {
      var violation := Violation(configId, kind, target, threshold + 1, threshold);
      RecordHolds(violations[..], violationIndex, log, violation);
      violations[violationIndex] := Some(violation);
      violationIndex := (violationIndex + 1) % maxViolations;
      log := log + [violation];
    }

    /** GetRecentViolations: the newest min(limit, recorded, capacity) records, newest first. */
    method GetRecentViolations(limit: int) returns (result: seq<Violation>)
      requires Valid()
      ensures var wanted := if limit <= 0 || limit > maxViolations then maxViolations else limit;
              result == Newest(log, Least(wanted, |log|))
    {
      var limit := if limit <= 0 || limit > maxViolations then maxViolations else limit;
      result := [];
      var count := 0;
      var idx := (violationIndex - 1 + maxViolations) % maxViolations;
      ghost var age := 0;
      Backward(violationIndex, maxViolations);
      while count < limit
        invariant 0 <= age < maxViolations && idx == Slot(violationIndex, age, maxViolations)
        invariant count == Least(age, |log|) <= limit
        invariant result == Newest(log, count)
        decreases maxViolations - age
      {
        assert SlotHolds(violations[..], violationIndex, log, age);
        if violations[idx].Some? {
          NewestNext(log, count);
          result := result + [violations[idx].value];
          count := count + 1;
        }
        Older(violationIndex, age, maxViolations);
        idx := (idx - 1 + maxViolations) % maxViolations;
        if idx == (violationIndex - 1 + maxViolations) % maxViolations {
          Older(violationIndex, if age + 1 == maxViolations then 0 else age + 1, maxViolations);
          break;
        }
        age := age + 1;
      }
    }
  }
}
