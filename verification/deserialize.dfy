/**
 * The deserializer of the deserialization example. A record's text
 * `{name:value,...}` is split into name/value pairs by a scan over the
 * input (a value that starts with `{` runs to its matching `}`, any other
 * value to the next `,` or `}`), the pairs go into a map where the first
 * pair with a name wins, and every emitted variable whose name is in the
 * map is deserialized from its value text; everything else is left as it
 * was.
 *
 * The C++ code does no error checking beyond the first and last
 * character: a read past the end of the input is undefined behaviour,
 * modelled here as the error `Undefined`.
 */
module Deserialization {
  import opened Wrappers
  import opened Text
  import opened Serialization

  /** How a call ends abnormally: a thrown message, or undefined behaviour (a read past the end of the input). */
  datatype Error = Thrown(message: string) | Undefined

  const OpenMissing := "{ missing"
  const CloseMissing := "} missing"

  // ---------------------------------------------------------------------------
  // The splitter
  // ---------------------------------------------------------------------------

  /**
   * The nested-value scan: from `back` at nesting `level`, the first `}`
   * met at level 0; `{` raises the level and `}` lowers it.
   */
  function ScanClose(input: string, back: nat, level: int): (r: Result<nat, Error>)
    ensures r.Ok? ==> back <= r.value < |input| && input[r.value] == '}'
    decreases |input| - back
  {
    if back >= |input| then Err(Undefined)
    else if input[back] == '}' && level == 0 then Ok(back)
    else ScanClose(input, back + 1, level + (if input[back] == '{' then 1 else 0) - (if input[back] == '}' then 1 else 0))
  }

  predicate IsStop(c: char)
  {
    c == ',' || c == '}'
  }

  /** The plain-value scan: the first `,` or `}` at or after `back`. */
  function ScanPlain(input: string, back: nat): (r: Result<nat, Error>)
    ensures r.Ok? ==> back <= r.value < |input| && IsStop(input[r.value])
    ensures r.Ok? ==> forall j :: back <= j < r.value ==> !IsStop(input[j])
    ensures r.Err? ==> r.error == Undefined && forall j :: back <= j < |input| ==> !IsStop(input[j])
    decreases |input| - back
  {
    if back >= |input| then Err(Undefined)
    else if IsStop(input[back]) then Ok(back)
    else ScanPlain(input, back + 1)
  }

  /** Where the value starting at `p` ends: just past its matching `}` for a record, at the next `,` or `}` otherwise. */
  function ValueEnd(input: string, p: nat): (r: Result<nat, Error>)
    requires p < |input|
    ensures r.Ok? ==> p <= r.value <= |input|
  {
    if input[p] == '{' then
      match ScanClose(input, p + 1, 0)
      case Ok(c) => Ok(c + 1)
      case Err(e) => Err(e)
    else ScanPlain(input, p)
  }

  /**
   * One pass of the pair loop from position `front`: the name runs to the
   * next `:`, the value follows it, and a `,` after the value is skipped;
   * the result is the pair and where the next pass starts.
   */
  function PairAt(input: string, front: nat): (r: Result<(Field, nat), Error>)
    requires front <= |input|
    ensures r.Ok? ==> front < r.value.1 <= |input| && ':' !in r.value.0.name
  {
    match FindCharFrom(input, ':', front)
    case None => Err(Undefined)
    case Some(colon) =>
      assert ':' !in input[front..colon] by {
        forall j | 0 <= j < colon - front ensures input[front..colon][j] != ':' {
          assert input[front..colon][j] == input[front + j];
        }
      }
      var p := colon + 1;
      if p >= |input| then Err(Undefined)
      else
        match ValueEnd(input, p)
        case Err(e) => Err(e)
        case Ok(b) =>
          if b >= |input| then Err(Undefined)
          else Ok((Field(input[front..colon], input[p..b]), if input[b] == ',' then b + 1 else b))
  }

  /** The pair loop from position `front`, which stops at the closing `}`. */
  function PairsFrom(input: string, front: nat): (r: Result<seq<Field>, Error>)
    requires 0 < |input| && front <= |input|
    ensures r.Ok? ==> forall i :: 0 <= i < |r.value| ==> ':' !in r.value[i].name
    decreases |input| - front
  {
    if front == |input| - 1 then Ok([])
    else
      match PairAt(input, front)
      case Err(e) => Err(e)
      case Ok((f, next)) =>
        match PairsFrom(input, next)
        case Err(e) => Err(e)
        case Ok(rest) => Ok([f] + rest)
  }

  /** The pairs of a whole input, after the checks on its first and last character and the early return for `{}`. */
  function Split(input: string): (r: Result<seq<Field>, Error>)
    ensures |input| == 0 ==> r == Err(Undefined)
    ensures r.Ok? ==> 2 <= |input| && input[0] == '{' && input[|input| - 1] == '}'
    ensures r.Ok? ==> forall i :: 0 <= i < |r.value| ==> ':' !in r.value[i].name
  {
    if |input| == 0 then Err(Undefined)
    else if input[0] != '{' then Err(Thrown(OpenMissing))
    else if input[|input| - 1] != '}' then Err(Thrown(CloseMissing))
    else if |input| == 2 then Ok([])
    else PairsFrom(input, 1)
  }

  // ---------------------------------------------------------------------------
  // The members map
  // ---------------------------------------------------------------------------

  /** The `members` map after inserting the pairs in order: `insert` never overwrites. */
  function Table(fs: seq<Field>): (t: map<string, string>)
    ensures fs != [] ==> fs[0].name in t && t[fs[0].name] == fs[0].text
    decreases |fs|
  {
    if fs == [] then map[]
    else
      var t := Table(fs[..|fs| - 1]);
      var f := fs[|fs| - 1];
      if f.name in t then t else t[f.name := f.text]
  }

  /** A name is in the map iff some pair carries it. */
  lemma {:induction false} TableKeys(fs: seq<Field>, k: string)
    ensures k in Table(fs) <==> exists i :: 0 <= i < |fs| && fs[i].name == k
    decreases |fs|
  {
    if fs != [] {
      var pre := fs[..|fs| - 1];
      TableKeys(pre, k);
      if exists i :: 0 <= i < |pre| && pre[i].name == k {
        var i :| 0 <= i < |pre| && pre[i].name == k;
        assert fs[i] == pre[i];
      }
      if exists i :: 0 <= i < |fs| && fs[i].name == k {
        var i :| 0 <= i < |fs| && fs[i].name == k;
        if i < |pre| {
          assert pre[i] == fs[i];
        }
      }
    }
  }

  /** The first pair with a name decides its value: later duplicates are ignored. */
  lemma {:induction false} TableFirstWins(fs: seq<Field>, i: nat)
    requires i < |fs|
    requires forall j :: 0 <= j < i ==> fs[j].name != fs[i].name
    ensures fs[i].name in Table(fs) && Table(fs)[fs[i].name] == fs[i].text
    decreases |fs|
  {
    var pre := fs[..|fs| - 1];
    if i == |fs| - 1 {
      TableKeys(pre, fs[i].name);
    } else {
      assert pre[i] == fs[i];
      forall j | 0 <= j < i
        ensures pre[j].name != pre[i].name
      {
        assert pre[j] == fs[j];
      }
      TableFirstWins(pre, i);
    }
  }

  // ---------------------------------------------------------------------------
  // Deserializing a value
  // ---------------------------------------------------------------------------

  /** The value after the call, and the error the call ended with, if any. */
  datatype Outcome = Outcome(value: Value, error: Option<Error>)

  datatype MembersOutcome = MembersOutcome(members: seq<Member>, error: Option<Error>)

  /**
   * `Serializer<T>::deserialize(t, input)`. A streamable value takes the
   * text (`ss >> t`); a value that is neither streamable nor reflected is
   * untouched, and so is a vector, which this example does not specialise.
   * A record is split first; an error before any assignment leaves it as
   * it was.
   */
  function Deserialize(x: Value, input: string): (o: Outcome)
    ensures x.Streamable? ==> o.value.Streamable? && o.value.text == input
    ensures x.Object? ==> o.value.Object? && |o.value.members| == |x.members|
    ensures o.error.Some? ==> x.Object?
    ensures !x.Streamable? && !x.Object? ==> o.value == x
    decreases x
  {
    match x
    case Streamable(_) => Outcome(Streamable(input), None)
    case Unprintable => Outcome(x, None)
    case Vector(_) => Outcome(x, None)
    case Object(ms) =>
      match Split(input)
      case Err(e) => Outcome(x, Some(e))
      case Ok(fs) =>
        var a := AssignMembers(ms, Table(fs));
        Outcome(Object(a.members), a.error)
  }

  /** The new value of one variable: deserialized from its entry when it is emitted and named in the map. */
  function AssignedValue(m: Member, table: map<string, string>): (o: Outcome)
    decreases m
  {
    if Emitted(m.v) && m.v.name in table then Deserialize(m.value, table[m.v.name])
    else Outcome(m.value, None)
  }

  /**
   * The visitor run over the variable list, in order; an error thrown while
   * deserializing one variable stops the walk, leaving the later variables
   * as they were.
   */
  function AssignMembers(ms: seq<Member>, table: map<string, string>): (r: MembersOutcome)
    ensures |r.members| == |ms|
    decreases ms
  {
    if ms == [] then MembersOutcome([], None)
    else
      var o := AssignedValue(ms[0], table);
      var m := Member(ms[0].v, o.value);
      if o.error.Some? then MembersOutcome([m] + ms[1..], o.error)
      else
        var rest := AssignMembers(ms[1..], table);
        MembersOutcome([m] + rest.members, rest.error)
  }

  /** Deserializing changes values only: the variable list stays as it was. */
  lemma {:induction false} AssignKeepsVariables(ms: seq<Member>, table: map<string, string>, i: nat)
    requires i < |ms|
    ensures AssignMembers(ms, table).members[i].v == ms[i].v
    decreases ms
  {
    if i > 0 && AssignedValue(ms[0], table).error.None? {
      AssignKeepsVariables(ms[1..], table, i - 1);
    }
  }

  /** A variable that is not emitted, or whose name is not in the map, keeps its value. */
  lemma {:induction false} AssignLeavesOthers(ms: seq<Member>, table: map<string, string>, i: nat)
    requires i < |ms|
    requires !(Emitted(ms[i].v) && ms[i].v.name in table)
    ensures AssignMembers(ms, table).members[i] == ms[i]
    decreases ms
  {
    if i > 0 {
      var o := AssignedValue(ms[0], table);
      if o.error.None? {
        AssignLeavesOthers(ms[1..], table, i - 1);
      }
    }
  }

  /** With an empty map nothing is assigned. */
  lemma {:induction false} AssignEmptyTable(ms: seq<Member>)
    ensures AssignMembers(ms, map[]) == MembersOutcome(ms, None)
    decreases ms
  {
    if ms != [] {
      AssignEmptyTable(ms[1..]);
      assert [ms[0]] + ms[1..] == ms;
    }
  }

  /**
   * The checks before splitting: an empty input is undefined, a missing
   * `{` or `}` throws, and `{}` returns at once; in each case the record
   * is unchanged.
   */
  lemma DeserializeChecks(ms: seq<Member>, input: string)
    ensures |input| == 0 ==> Deserialize(Object(ms), input) == Outcome(Object(ms), Some(Undefined))
    ensures |input| > 0 && input[0] != '{' ==> Deserialize(Object(ms), input) == Outcome(Object(ms), Some(Thrown(OpenMissing)))
    ensures |input| > 0 && input[0] == '{' && input[|input| - 1] != '}' ==>
      Deserialize(Object(ms), input) == Outcome(Object(ms), Some(Thrown(CloseMissing)))
    ensures input == "{}" ==> Deserialize(Object(ms), input) == Outcome(Object(ms), None)
  {
    if input == "{}" {
      AssignEmptyTable(ms);
      assert Table([]) == map[];
    }
  }

  // ---------------------------------------------------------------------------
  // The deserializer as it runs: pointer scans, the map, assignment in place
  // ---------------------------------------------------------------------------

  /** `while (*back != ':') back++;` from `front`; running off the end is undefined behaviour. */
  method NameEnd(input: string, front: nat) returns (r: Option<nat>)
    requires front <= |input|
    ensures r == FindCharFrom(input, ':', front)
  {
    var back := front;
    while back < |input| && input[back] != ':'
      invariant front <= back <= |input|
      invariant FindCharFrom(input, ':', back) == FindCharFrom(input, ':', front)
      decreases |input| - back
    {
      back := back + 1;
    }
    if back == |input| {
      return None;
    }
    return Some(back);
  }

  /** The nesting loop after a `{`: stop at a `}` met at level 0. */
  method NestedEnd(input: string, start: nat) returns (r: Result<nat, Error>)
    ensures r == ScanClose(input, start, 0)
  {
    var back := start;
    var level := 0;
    while back < |input| && (input[back] != '}' || level != 0)
      invariant start <= back
      invariant ScanClose(input, back, level) == ScanClose(input, start, 0)
      decreases |input| - back
    {
      if input[back] == '{' {
        level := level + 1;
      }
      if input[back] == '}' {
        level := level - 1;
      }
      back := back + 1;
    }
    if back >= |input| {
      return Err(Undefined);
    }
    return Ok(back);
  }

  /** `while (*back != ',' && *back != '}') back++;` */
  method PlainEnd(input: string, start: nat) returns (r: Result<nat, Error>)
    ensures r == ScanPlain(input, start)
  {
    var back := start;
    while back < |input| && !IsStop(input[back])
      invariant start <= back
      invariant ScanPlain(input, back) == ScanPlain(input, start)
      decreases |input| - back
    {
      back := back + 1;
    }
    if back >= |input| {
      return Err(Undefined);
    }
    return Ok(back);
  }

  /** One pass of the outer loop: the name, the value, and the skipped `,`. */
  method ReadPair(input: string, front: nat) returns (r: Result<(Field, nat), Error>)
    requires front <= |input|
    ensures r == PairAt(input, front)
  {
    var colon := NameEnd(input, front);
    if colon.None? {
      return Err(Undefined);
    }
    var name := input[front..colon.value];
    var p := colon.value + 1;
    if p >= |input| {
      return Err(Undefined);
    }
    var back: nat;
    if input[p] == '{' {
      var close := NestedEnd(input, p + 1);
      if close.Err? {
        return Err(close.error);
      }
      back := close.value + 1;
    } else {
      var stop := PlainEnd(input, p);
      if stop.Err? {
        return Err(stop.error);
      }
      back := stop.value;
    }
    if back >= |input| {
      return Err(Undefined);
    }
    var value := input[p..back];
    if input[back] == ',' {
      back := back + 1;
    }
    return Ok((Field(name, value), back));
  }

  /** The pairs `done` followed by the outcome of the rest of the loop. */
  function After(done: seq<Field>, r: Result<seq<Field>, Error>): Result<seq<Field>, Error>
  {
    match r
    case Err(e) => Err(e)
    case Ok(rest) => Ok(done + rest)
  }

  /** A pass of the outer loop keeps what the loop has inserted and what remains in step with the whole pair list. */
  lemma CollectStep(input: string, front: nat, done: seq<Field>, f: Field, next: nat)
    requires 0 < |input| && front <= |input| && front != |input| - 1
    requires PairAt(input, front) == Ok((f, next))
    ensures Table(done + [f]) == if f.name in Table(done) then Table(done) else Table(done)[f.name := f.text]
    ensures After(done, PairsFrom(input, front)) == After(done + [f], PairsFrom(input, next))
  {
    assert (done + [f])[..|done|] == done;
    var r := PairsFrom(input, next);
    if r.Ok? {
      assert done + ([f] + r.value) == done + [f] + r.value;
    }
  }

  /** The outer loop: pairs from position 1 until `front` reaches the last character, inserted into `members`. */
  method CollectPairs(input: string) returns (r: Result<map<string, string>, Error>)
    requires 0 < |input|
    ensures r == match PairsFrom(input, 1) case Err(e) => Err(e) case Ok(fs) => Ok(Table(fs))
  {
    var members: map<string, string> := map[];
    ghost var done: seq<Field> := [];
    var front: nat := 1;
    assert After([], PairsFrom(input, 1)) == PairsFrom(input, 1) by {
      var all := PairsFrom(input, 1);
      if all.Ok? {
        assert [] + all.value == all.value;
      }
    }
    while front != |input| - 1
      invariant front <= |input|
      invariant members == Table(done)
      invariant PairsFrom(input, 1) == After(done, PairsFrom(input, front))
      decreases |input| - front
    {
      var pair := ReadPair(input, front);
      if pair.Err? {
        assert PairsFrom(input, front) == Err(pair.error);
        return Err(pair.error);
      }
      var (f, next) := pair.value;
      CollectStep(input, front, done, f, next);
      if f.name !in members {
        members := members[f.name := f.text];
      }
      done := done + [f];
      front := next;
    }
    assert done + [] == done;
    return Ok(members);
  }

  /** The variables assigned so far followed by the outcome of the rest of the walk. */
  function MembersAfter(done: seq<Member>, r: MembersOutcome): MembersOutcome
  {
    MembersOutcome(done + r.members, r.error)
  }

  /** `Serializer<T>::deserialize(t, input)` on a value: the streamable case, the untouched cases, or a record. */
  method DeserializeInto(x: Value, input: string) returns (o: Outcome)
    ensures o == Deserialize(x, input)
    decreases x, 2
  {
    match x
    case Streamable(_) =>
      o := Outcome(Streamable(input), None);
    case Unprintable =>
      o := Outcome(x, None);
    case Vector(_) =>
      o := Outcome(x, None);
    case Object(ms) =>
      o := DeserializeRecord(ms, input);
  }

  /**
   * The reflected-record `deserialize`: the checks, the pair loop that fills
   * `members`, then the visitor over the variable list, which assigns each
   * emitted variable found in the map in place.
   */
  method DeserializeRecord(ms: seq<Member>, input: string) returns (o: Outcome)
    ensures o == Deserialize(Object(ms), input)
    decreases ms, 1
  {
    if |input| == 0 {
      return Outcome(Object(ms), Some(Undefined));
    }
    if input[0] != '{' {
      return Outcome(Object(ms), Some(Thrown(OpenMissing)));
    }
    if input[|input| - 1] != '}' {
      return Outcome(Object(ms), Some(Thrown(CloseMissing)));
    }
    if |input| == 2 {
      AssignEmptyTable(ms);
      return Outcome(Object(ms), None);
    }
    var members := CollectPairs(input);
    if members.Err? {
      return Outcome(Object(ms), Some(members.error));
    }
    var a := AssignAll(ms, members.value);
    return Outcome(Object(a.members), a.error);
  }

  /**
   * The visitor walk over the variable list, assigning in place; an error
   * stops it and leaves the later variables as they were.
   */
  method AssignAll(ms: seq<Member>, table: map<string, string>) returns (r: MembersOutcome)
    ensures r == AssignMembers(ms, table)
    decreases ms, 0
  {
    var fields := ms;
    var k := 0;
    assert ms[0..] == ms;
    while k < |ms|
      invariant k <= |ms| && |fields| == |ms|
      invariant fields[k..] == ms[k..]
      invariant AssignMembers(ms, table) == MembersAfter(fields[..k], AssignMembers(ms[k..], table))
      decreases |ms| - k
    {
      var m := ms[k];
      var o := AssignVariable(m, table);
      AssignWalkStep(ms, k, table, fields, o);
      fields := fields[k := Member(m.v, o.value)];
      if o.error.Some? {
        return MembersOutcome(fields, o.error);
      }
      k := k + 1;
    }
    assert fields[..k] == fields;
    return MembersOutcome(fields, None);
  }

  /** One step of the visitor walk from variable `k`. */
  lemma AssignStep(ms: seq<Member>, k: nat, table: map<string, string>)
    requires k < |ms|
    ensures var o := AssignedValue(ms[k], table);
      AssignMembers(ms[k..], table) ==
        if o.error.Some? then MembersOutcome([Member(ms[k].v, o.value)] + ms[k + 1..], o.error)
        else MembersAfter([Member(ms[k].v, o.value)], AssignMembers(ms[k + 1..], table))
  {
    assert ms[k..][0] == ms[k];
    assert ms[k..][1..] == ms[k + 1..];
  }

  lemma SnocThenAppend(a: seq<Member>, m: Member, b: seq<Member>)
    ensures a + ([m] + b) == (a + [m]) + b
  {
  }

  /** The walk's invariant after assigning variable `k` in place: the final outcome, or the invariant at `k + 1`. */
  lemma AssignWalkStep(ms: seq<Member>, k: nat, table: map<string, string>, fields: seq<Member>, o: Outcome)
    requires k < |ms| && |fields| == |ms| && fields[k..] == ms[k..]
    requires AssignMembers(ms, table) == MembersAfter(fields[..k], AssignMembers(ms[k..], table))
    requires o == AssignedValue(ms[k], table)
    ensures var fields' := fields[k := Member(ms[k].v, o.value)];
      fields'[k + 1..] == ms[k + 1..] &&
      if o.error.Some? then AssignMembers(ms, table) == MembersOutcome(fields', o.error)
      else AssignMembers(ms, table) == MembersAfter(fields'[..k + 1], AssignMembers(ms[k + 1..], table))
  {
    AssignStep(ms, k, table);
    var m := Member(ms[k].v, o.value);
    var fields' := fields[k := m];
    assert fields'[..k + 1] == fields[..k] + [m];
    assert fields'[k + 1..] == fields[k + 1..] == ms[k + 1..] by {
      assert fields[k + 1..] == fields[k..][1..];
    }
    if o.error.Some? {
      assert fields' == fields[..k] + [m] + ms[k + 1..];
    } else {
      var rest := AssignMembers(ms[k + 1..], table);
      SnocThenAppend(fields[..k], m, rest.members);
    }
  }

  /** The visitor body for one variable: emitted and found in the map means deserialized from its entry. */
  method AssignVariable(m: Member, table: map<string, string>) returns (o: Outcome)
    ensures o == AssignedValue(m, table)
    decreases m, 1
  {
    if Emitted(m.v) && m.v.name in table {
      o := DeserializeInto(m.value, table[m.v.name]);
    } else {
      o := Outcome(m.value, None);
    }
  }
}
