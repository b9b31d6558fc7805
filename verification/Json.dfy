/**
 * Parsed manifest values, with the two notions of equality the program uses:
 * Python's `==`, under which `True == 1 == 1.0` also inside containers, and the
 * type-exact scalar comparison of `same_scalar`.
 */
module Json {
  datatype Option<+T> = None | Some(value: T)

  datatype Json =
    | Null
    | Bool(b: bool)
    | Int(i: int)
    | Float(r: real)
    | Str(s: string)
    | List(items: seq<Json>)
    | Obj(fields: map<string, Json>)

  predicate IsNumber(j: Json) {
    j.Bool? || j.Int? || j.Float?
  }

  function NumberValue(j: Json): real
    requires IsNumber(j)
  {
    match j
    case Bool(b) => if b then 1.0 else 0.0
    case Int(i) => i as real
    case Float(r) => r
  }

  predicate IsScalar(j: Json) {
    !j.List? && !j.Obj?
  }

  // Python's `==` on parsed documents.
  predicate PyEq(a: Json, b: Json) {
    if IsNumber(a) && IsNumber(b) then
      NumberValue(a) == NumberValue(b)
    else match (a, b)
      case (List(xs), List(ys)) => |xs| == |ys| && forall i :: 0 <= i < |xs| ==> PyEq(xs[i], ys[i])
      case (Obj(m), Obj(n)) => m.Keys == n.Keys && forall k :: k in m ==> PyEq(m[k], n[k])
      case _ => a == b
  }

  predicate SameType(a: Json, b: Json) {
    match a
    case Null => b.Null?
    case Bool(_) => b.Bool?
    case Int(_) => b.Int?
    case Float(_) => b.Float?
    case Str(_) => b.Str?
    case List(_) => b.List?
    case Obj(_) => b.Obj?
  }

  // same_scalar: equal value and identical Python type.
  predicate SameScalar(a: Json, b: Json) {
    SameType(a, b) && PyEq(a, b)
  }

  // A canonical representative of each class of `==`-equal values.
  function Norm(j: Json): Json {
    match j
    case Null => Null
    case Str(_) => j
    case List(xs) => List(seq(|xs|, i requires 0 <= i < |xs| => Norm(xs[i])))
    case Obj(m) => Obj(map k | k in m :: Norm(m[k]))
    case _ => Float(NumberValue(j))
  }

  lemma {:induction false} PyEqIsNormEquality(a: Json, b: Json)
    ensures PyEq(a, b) <==> Norm(a) == Norm(b)
  {
    match (a, b)
    case (List(xs), List(ys)) =>
      if |xs| == |ys| {
        forall i | 0 <= i < |xs|
          ensures PyEq(xs[i], ys[i]) <==> Norm(xs[i]) == Norm(ys[i])
        {
          PyEqIsNormEquality(xs[i], ys[i]);
        }
        if PyEq(a, b) {
          assert Norm(a).items == Norm(b).items;
        } else {
          var i :| 0 <= i < |xs| && !PyEq(xs[i], ys[i]);
          assert Norm(a).items[i] != Norm(b).items[i];
        }
      } else {
        assert |Norm(a).items| != |Norm(b).items|;
      }
    case (Obj(m), Obj(n)) =>
      if m.Keys == n.Keys {
        forall k | k in m
          ensures PyEq(m[k], n[k]) <==> Norm(m[k]) == Norm(n[k])
        {
          PyEqIsNormEquality(m[k], n[k]);
        }
        if PyEq(a, b) {
          assert Norm(a).fields == Norm(b).fields;
        } else {
          var k :| k in m && !PyEq(m[k], n[k]);
          assert Norm(a).fields[k] != Norm(b).fields[k];
        }
      } else {
        assert Norm(a).fields.Keys == m.Keys && Norm(b).fields.Keys == n.Keys;
      }
    case _ =>
  }

  // Python's `==` is an equivalence relation.
  lemma PyEqEquivalence(a: Json, b: Json, c: Json)
    ensures PyEq(a, a)
    ensures PyEq(a, b) ==> PyEq(b, a)
    ensures PyEq(a, b) && PyEq(b, c) ==> PyEq(a, c)
  {
    PyEqIsNormEquality(a, a);
    PyEqIsNormEquality(a, b);
    PyEqIsNormEquality(b, a);
    PyEqIsNormEquality(b, c);
    PyEqIsNormEquality(a, c);
  }
}
