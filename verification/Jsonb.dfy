/** PostgreSQL's jsonb, as input from JSON text: no NUL in a string, and an object keeps the last of
    several members of one name. */
module Jsonb {
  import opened Wrappers
  import opened Json

  datatype Value =
    | Nothing
    | Truth(b: bool)
    | Number(n: int)
    | Text(s: string)
    | List(elements: seq<Value>)
    | Table(members: map<string, Value>)

  /** None is an error of jsonb input. */
  function Input(v: Json): Option<Value>
    decreases v, 0
  {
    match v
    case Null => Some(Nothing)
    case Bool(b) => Some(Truth(b))
    case Int(n) => Some(Number(n))
    case Str(s) => if '\0' in s then None else Some(Text(s))
    case Arr(vs) => if InputAll(vs).None? then None else Some(List(InputAll(vs).value))
    case Obj(ms) => if InputMembers(ms).None? then None else Some(Table(InputMembers(ms).value))
  }

  function InputAll(vs: seq<Json>): Option<seq<Value>>
    decreases vs, 1
  {
    if vs == [] then Some([])
    else if Input(vs[0]).None? || InputAll(vs[1..]).None? then None
    else Some([Input(vs[0]).value] + InputAll(vs[1..]).value)
  }

  function InputMembers(ms: seq<Field>): Option<map<string, Value>>
    decreases ms, 1
  {
    if ms == [] then Some(map[])
    else
      var value, more := Input(ms[0].value), InputMembers(ms[1..]);
      if '\0' in ms[0].name || value.None? || more.None? then None
      else Some(if ms[0].name in more.value then more.value else more.value[ms[0].name := value.value])
  }

  /** Every string and every name in a value. */
  function Strings(v: Json): seq<string>
    decreases v, 0
  {
    match v
    case Str(s) => [s]
    case Arr(vs) => AllStrings(vs)
    case Obj(ms) => MemberStrings(ms)
    case _ => []
  }

  function AllStrings(vs: seq<Json>): seq<string>
    decreases vs, 1
  {
    if vs == [] then [] else Strings(vs[0]) + AllStrings(vs[1..])
  }

  function MemberStrings(ms: seq<Field>): seq<string>
    decreases ms, 1
  {
    if ms == [] then [] else [ms[0].name] + Strings(ms[0].value) + MemberStrings(ms[1..])
  }

  predicate NulFree(strings: seq<string>) { forall i | 0 <= i < |strings| :: '\0' !in strings[i] }

  predicate NoNul(v: Json) { NulFree(Strings(v)) }

  lemma NulFreeAppend(a: seq<string>, b: seq<string>)
    ensures NulFree(a + b) <==> NulFree(a) && NulFree(b)
  {
    assert forall i | 0 <= i < |a| :: (a + b)[i] == a[i];
    assert forall i | 0 <= i < |b| :: (a + b)[|a| + i] == b[i];
  }

  /** Input fails exactly on a NUL in some string or name. */
  lemma {:induction false} InputIff(v: Json)
    ensures Input(v).Some? <==> NoNul(v)
    decreases v, 0
  {
    match v
    case Str(s) => assert Strings(v)[0] == s;
    case Arr(vs) => InputElementsIff(vs);
    case Obj(ms) => InputMembersIff(ms);
    case _ =>
  }

  lemma {:induction false} InputElementsIff(vs: seq<Json>)
    ensures InputAll(vs).Some? <==> NulFree(AllStrings(vs))
    decreases vs, 1
  {
    if vs != [] {
      InputIff(vs[0]);
      InputElementsIff(vs[1..]);
      NulFreeAppend(Strings(vs[0]), AllStrings(vs[1..]));
      hide NulFree, Strings, Input;
    }
  }

  lemma {:induction false} InputMembersIff(ms: seq<Field>)
    ensures InputMembers(ms).Some? <==> NulFree(MemberStrings(ms))
    decreases ms, 1
  {
    if ms != [] {
      var m := ms[0];
      InputIff(m.value);
      InputMembersIff(ms[1..]);
      assert NulFree([m.name]) <==> '\0' !in m.name by { assert [m.name][0] == m.name; }
      NulFreeAppend([m.name], Strings(m.value));
      NulFreeAppend([m.name] + Strings(m.value), MemberStrings(ms[1..]));
      hide NulFree, Strings, Input;
    }
  }

  lemma {:induction false} InputAllIff(vs: seq<Json>)
    ensures InputAll(vs).Some? <==> forall i | 0 <= i < |vs| :: NoNul(vs[i])
    ensures InputAll(vs).Some? ==>
      |InputAll(vs).value| == |vs| && forall i | 0 <= i < |vs| :: Input(vs[i]) == Some(InputAll(vs).value[i])
  {
    if vs != [] {
      InputIff(vs[0]);
      InputAllIff(vs[1..]);
      hide NoNul, Input;
      assert forall i | 0 < i < |vs| :: vs[i] == vs[1..][i - 1];
      assert forall i | 0 <= i < |vs| - 1 :: vs[1..][i] == vs[i + 1];
    }
  }

  /** Member `i` is the last of its name. */
  predicate IsLast(ms: seq<Field>, i: nat) { i < |ms| && forall j | i < j < |ms| :: ms[j].name != ms[i].name }

  lemma LastStep(ms: seq<Field>, i: nat)
    requires ms != [] && i > 0
    ensures IsLast(ms, i) <==> IsLast(ms[1..], i - 1)
    ensures i < |ms| ==> ms[i] == ms[1..][i - 1]
  {
    assert forall j | 0 < j < |ms| :: ms[j] == ms[1..][j - 1];
    assert forall j | 0 <= j < |ms| - 1 :: ms[1..][j] == ms[j + 1];
  }

  lemma {:induction false} NamesKept(ms: seq<Field>, name: string)
    requires InputMembers(ms).Some?
    ensures name in InputMembers(ms).value <==> exists j :: 0 <= j < |ms| && ms[j].name == name
  {
    hide Input;
    if ms != [] {
      var rest := ms[1..];
      NamesKept(rest, name);
      assert forall j | 0 < j < |ms| :: ms[j] == rest[j - 1];
      if j :| 0 <= j < |rest| && rest[j].name == name { assert ms[j + 1].name == name; }
    }
  }

  lemma FirstIsLast(ms: seq<Field>)
    requires ms != [] && InputMembers(ms).Some?
    ensures IsLast(ms, 0) <==> ms[0].name !in InputMembers(ms[1..]).value
  {
    hide Input;
    var rest := ms[1..];
    NamesKept(rest, ms[0].name);
    assert forall j | 0 < j < |ms| :: ms[j] == rest[j - 1];
    if j :| 0 <= j < |rest| && rest[j].name == ms[0].name { assert ms[j + 1].name == ms[0].name; }
  }

  /** An object holds the last member of each name, and nothing else. */
  lemma {:induction false} LastIsKept(ms: seq<Field>, i: nat)
    requires InputMembers(ms).Some? && IsLast(ms, i)
    ensures var m := InputMembers(ms).value; ms[i].name in m && Input(ms[i].value) == Some(m[ms[i].name])
  {
    hide Input;
    FirstIsLast(ms);
    if i > 0 {
      LastStep(ms, i);
      LastIsKept(ms[1..], i - 1);
    }
  }

  lemma {:induction false} KeptIsLast(ms: seq<Field>, name: string) returns (i: nat)
    requires InputMembers(ms).Some? && name in InputMembers(ms).value
    ensures IsLast(ms, i) && ms[i].name == name
  {
    hide Input;
    FirstIsLast(ms);
    if name in InputMembers(ms[1..]).value {
      var j := KeptIsLast(ms[1..], name);
      i := j + 1;
      LastStep(ms, i);
    } else {
      i := 0;
    }
  }

  /** `w` is `v` as jsonb keeps it: the same scalars and lists, and of each object the last member
      of every name. */
  ghost predicate Keeps(v: Json, w: Value)
    decreases v
  {
    match v
    case Null => w == Nothing
    case Bool(b) => w == Truth(b)
    case Int(n) => w == Number(n)
    case Str(s) => w == Text(s)
    case Arr(vs) => w.List? && |w.elements| == |vs| && forall i | 0 <= i < |vs| :: Keeps(vs[i], w.elements[i])
    case Obj(ms) =>
      && w.Table?
      && (forall name :: name in w.members <==> exists i: nat :: IsLast(ms, i) && ms[i].name == name)
      && forall i: nat | i < |ms| && IsLast(ms, i) :: ms[i].name in w.members && Keeps(ms[i].value, w.members[ms[i].name])
  }

  /** What the column holds of each value. */
  lemma {:induction false} InputKeeps(v: Json)
    requires Input(v).Some?
    ensures Keeps(v, Input(v).value)
    decreases v, 1
  {
    match v
    case Arr(vs) =>
      InputAllIff(vs);
      forall i | 0 <= i < |vs| ensures Keeps(vs[i], Input(vs[i]).value) {
        InputIff(vs[i]);
        InputKeeps(vs[i]);
      }
    case Obj(ms) =>
      forall name ensures name in InputMembers(ms).value <==> exists i: nat :: IsLast(ms, i) && ms[i].name == name {
        if name in InputMembers(ms).value { var i := KeptIsLast(ms, name); }
        if i: nat :| IsLast(ms, i) && ms[i].name == name { LastIsKept(ms, i); }
      }
      forall i: nat | i < |ms| && IsLast(ms, i)
        ensures ms[i].name in InputMembers(ms).value && Keeps(ms[i].value, InputMembers(ms).value[ms[i].name])
      {
        LastIsKept(ms, i);
        InputKeeps(ms[i].value);
      }
    case _ =>
  }
}
