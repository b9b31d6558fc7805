/**
 * Concrete locations inside a parsed document: reading and writing at one place,
 * and the simultaneous substitution of several places that successive writes amount to.
 */
module Location {
  import opened Json

  datatype Step = Key(k: string) | Index(i: nat)

  type Loc = seq<Step>

  function Child(j: Json, s: Step): Option<Json> {
    match (j, s)
    case (Obj(m), Key(k)) => if k in m then Some(m[k]) else None
    case (List(xs), Index(i)) => if i < |xs| then Some(xs[i]) else None
    case _ => None
  }

  function PutChild(j: Json, s: Step, v: Json): Json
    requires Child(j, s).Some?
  {
    match (j, s)
    case (Obj(m), Key(k)) => Obj(m[k := v])
    case (List(xs), Index(i)) => List(xs[i := v])
  }

  function At(j: Json, l: Loc): Option<Json>
    decreases l
  {
    if l == [] then Some(j)
    else
      var c := Child(j, l[0]);
      if c.None? then None else At(c.value, l[1..])
  }

  function Put(j: Json, l: Loc, v: Json): Json
    requires At(j, l).Some?
    decreases l
  {
    if l == [] then v else PutChild(j, l[0], Put(Child(j, l[0]).value, l[1..], v))
  }

  // Neither location contains the other.
  predicate Apart(a: Loc, b: Loc) {
    !(a <= b) && !(b <= a)
  }

  lemma ChildOfPut(j: Json, s: Step, v: Json, t: Step)
    requires Child(j, s).Some?
    ensures Child(PutChild(j, s, v), t) == if t == s then Some(v) else Child(j, t)
  {
  }

  // A write leaves alone every place apart from it.
  lemma {:induction false} PutApart(j: Json, l: Loc, v: Json, m: Loc)
    requires At(j, l).Some? && At(j, m).Some? && Apart(l, m)
    ensures At(Put(j, l, v), m) == At(j, m)
    decreases l
  {
    var below := Put(Child(j, l[0]).value, l[1..], v);
    ChildOfPut(j, l[0], below, m[0]);
    if l[0] == m[0] {
      assert l == [l[0]] + l[1..] && m == [m[0]] + m[1..];
      PutApart(Child(j, l[0]).value, l[1..], v, m[1..]);
    }
  }

  // Above a written place, the write is a write below.
  lemma {:induction false} PutAbove(j: Json, l: Loc, v: Json, steps: Loc)
    requires At(j, l).Some? && steps <= l
    ensures At(j, steps).Some? && At(At(j, steps).value, l[|steps|..]) == At(j, l)
    ensures At(Put(j, l, v), steps) == Some(Put(At(j, steps).value, l[|steps|..], v))
    decreases steps
  {
    if steps == [] {
      assert l[0..] == l;
    } else {
      var below := Put(Child(j, l[0]).value, l[1..], v);
      ChildOfPut(j, l[0], below, l[0]);
      assert l[1..][|steps| - 1..] == l[|steps|..] && steps[0] == l[0];
      PutAbove(Child(j, l[0]).value, l[1..], v, steps[1..]);
    }
  }

  lemma {:induction false} AtConcat(j: Json, a: Loc, b: Loc)
    ensures At(j, a + b) == if At(j, a).None? then None else At(At(j, a).value, b)
    decreases a
  {
    if a == [] {
      assert a + b == b;
    } else {
      assert (a + b)[0] == a[0] && (a + b)[1..] == a[1..] + b;
      if Child(j, a[0]).Some? {
        AtConcat(Child(j, a[0]).value, a[1..], b);
      }
    }
  }

  // Nothing lies below a scalar, so two different scalar locations are apart.
  lemma ScalarsApart(j: Json, a: Loc, b: Loc)
    requires At(j, a).Some? && IsScalar(At(j, a).value)
    requires At(j, b).Some? && IsScalar(At(j, b).value)
    requires a != b
    ensures Apart(a, b)
  {
  }

  // The document under `here` with every location of `edits` replaced at once.
  function Overlay(j: Json, here: Loc, edits: map<Loc, Json>): Json {
    if here in edits then edits[here]
    else match j
      case Obj(m) => Obj(map k | k in m :: Overlay(m[k], here + [Key(k)], edits))
      case List(xs) => List(seq(|xs|, i requires 0 <= i < |xs| => Overlay(xs[i], here + [Index(i)], edits)))
      case _ => j
  }

  lemma {:induction false} OverlayIdentity(j: Json, here: Loc, edits: map<Loc, Json>)
    requires forall l :: here + l in edits ==> At(j, l) == Some(edits[here + l])
    ensures Overlay(j, here, edits) == j
    decreases j
  {
    if here in edits {
      assert here + [] == here;
      assert At(j, []) == Some(edits[here + []]);
    } else {
      match j
      case Obj(m) =>
        forall k | k in m
          ensures Overlay(m[k], here + [Key(k)], edits) == m[k]
        {
          forall l | here + [Key(k)] + l in edits
            ensures At(m[k], l) == Some(edits[here + [Key(k)] + l])
          {
            AtBelow(j, here, edits, Key(k), l);
          }
          OverlayIdentity(m[k], here + [Key(k)], edits);
        }
        assert Overlay(j, here, edits).fields == m;
      case List(xs) =>
        forall i | 0 <= i < |xs|
          ensures Overlay(xs[i], here + [Index(i)], edits) == xs[i]
        {
          forall l | here + [Index(i)] + l in edits
            ensures At(xs[i], l) == Some(edits[here + [Index(i)] + l])
          {
            AtBelow(j, here, edits, Index(i), l);
          }
          OverlayIdentity(xs[i], here + [Index(i)], edits);
        }
        assert Overlay(j, here, edits).items == xs;
      case _ =>
    }
  }

  lemma OverlayIdentityAtRoot(j: Json, edits: map<Loc, Json>)
    requires forall l :: l in edits ==> At(j, l) == Some(edits[l])
    ensures Overlay(j, [], edits) == j
  {
    forall l: Loc | [] + l in edits
      ensures At(j, l) == Some(edits[[] + l])
    {
      assert [] + l == l;
    }
    OverlayIdentity(j, [], edits);
  }

  lemma AtBelow(j: Json, here: Loc, edits: map<Loc, Json>, s: Step, l: Loc)
    requires Child(j, s).Some? && here + [s] + l in edits
    requires here + ([s] + l) in edits ==> At(j, [s] + l) == Some(edits[here + ([s] + l)])
    ensures At(Child(j, s).value, l) == Some(edits[here + [s] + l])
  {
    assert here + ([s] + l) == here + [s] + l;
    assert ([s] + l)[0] == s && ([s] + l)[1..] == l;
  }

  // An edit outside the subtree at `here` has no effect on it.
  lemma {:induction false} OverlayElsewhere(j: Json, here: Loc, edits: map<Loc, Json>, x: Loc, v: Json)
    requires !(here <= x)
    ensures Overlay(j, here, edits[x := v]) == Overlay(j, here, edits)
    decreases j
  {
    assert here != x;
    match j
    case Obj(m) =>
      forall k | k in m
        ensures Overlay(m[k], here + [Key(k)], edits[x := v]) == Overlay(m[k], here + [Key(k)], edits)
      {
        assert here <= here + [Key(k)];
        OverlayElsewhere(m[k], here + [Key(k)], edits, x, v);
      }
      if here !in edits {
        assert Overlay(j, here, edits[x := v]).fields == Overlay(j, here, edits).fields;
      }
    case List(xs) =>
      forall i | 0 <= i < |xs|
        ensures Overlay(xs[i], here + [Index(i)], edits[x := v]) == Overlay(xs[i], here + [Index(i)], edits)
      {
        assert here <= here + [Index(i)];
        OverlayElsewhere(xs[i], here + [Index(i)], edits, x, v);
      }
      if here !in edits {
        assert Overlay(j, here, edits[x := v]).items == Overlay(j, here, edits).items;
      }
    case _ =>
  }

  // A location apart from every edit still exists after the edits.
  lemma {:induction false} AtOverlay(j: Json, here: Loc, edits: map<Loc, Json>, l: Loc)
    requires At(j, l).Some?
    requires forall e :: e in edits ==> Apart(e, here + l)
    ensures At(Overlay(j, here, edits), l) == Some(Overlay(At(j, l).value, here + l, edits))
    decreases l
  {
    if l == [] {
      assert here + l == here;
    } else {
      assert here <= here + l;
      assert here !in edits;
      var c := Child(j, l[0]).value;
      assert here + [l[0]] + l[1..] == here + l;
      AtOverlay(c, here + [l[0]], edits, l[1..]);
    }
  }

  // An edit below one child changes that child only.
  lemma OverlayBelowChild(j: Json, here: Loc, edits: map<Loc, Json>, s: Step, x: Loc, v: Json)
    requires Child(j, s).Some? && here !in edits && here + [s] <= x
    ensures Child(Overlay(j, here, edits), s).Some?
    ensures Overlay(j, here, edits[x := v])
         == PutChild(Overlay(j, here, edits), s, Overlay(Child(j, s).value, here + [s], edits[x := v]))
  {
    var more := edits[x := v];
    assert here != x && x[|here|] == s;
    match j
    case Obj(m) =>
      forall k | k in m && k != s.k
        ensures Overlay(m[k], here + [Key(k)], more) == Overlay(m[k], here + [Key(k)], edits)
      {
        assert (here + [Key(k)])[|here|] != x[|here|];
        OverlayElsewhere(m[k], here + [Key(k)], edits, x, v);
      }
      assert Overlay(j, here, more).fields
          == Overlay(j, here, edits).fields[s.k := Overlay(m[s.k], here + [s], more)];
    case List(xs) =>
      forall i | 0 <= i < |xs| && i != s.i
        ensures Overlay(xs[i], here + [Index(i)], more) == Overlay(xs[i], here + [Index(i)], edits)
      {
        assert (here + [Index(i)])[|here|] != x[|here|];
        OverlayElsewhere(xs[i], here + [Index(i)], edits, x, v);
      }
      assert Overlay(j, here, more).items
          == Overlay(j, here, edits).items[s.i := Overlay(xs[s.i], here + [s], more)];
  }

  // One more write extends the substitution by one place.
  lemma {:induction false} PutExtendsOverlay(j: Json, here: Loc, edits: map<Loc, Json>, l: Loc, v: Json)
    requires At(j, l).Some?
    requires forall e :: e in edits ==> Apart(e, here + l)
    ensures At(Overlay(j, here, edits), l).Some?
    ensures Put(Overlay(j, here, edits), l, v) == Overlay(j, here, edits[here + l := v])
    decreases l
  {
    if l == [] {
      assert here + l == here;
    } else {
      var s, c := l[0], Child(j, l[0]).value;
      assert here <= here + l && here + [s] <= here + l;
      assert here + [s] + l[1..] == here + l;
      PutExtendsOverlay(c, here + [s], edits, l[1..], v);
      assert here !in edits;
      OverlayBelowChild(j, here, edits, s, here + l, v);
      ChildOfOverlay(j, here, edits, s);
    }
  }

  lemma ChildOfOverlay(j: Json, here: Loc, edits: map<Loc, Json>, s: Step)
    requires Child(j, s).Some? && here !in edits
    ensures Child(Overlay(j, here, edits), s) == Some(Overlay(Child(j, s).value, here + [s], edits))
  {
  }

  // Every edit at or below `here` replaces a scalar of the document by a scalar.
  ghost predicate ScalarEdits(j: Json, here: Loc, edits: map<Loc, Json>) {
    forall l :: here + l in edits ==> At(j, l).Some? && IsScalar(At(j, l).value) && IsScalar(edits[here + l])
  }

  lemma ScalarEditsBelow(j: Json, here: Loc, edits: map<Loc, Json>, s: Step)
    requires ScalarEdits(j, here, edits) && Child(j, s).Some?
    ensures ScalarEdits(Child(j, s).value, here + [s], edits)
  {
    forall l | here + [s] + l in edits
      ensures At(Child(j, s).value, l).Some? && IsScalar(At(Child(j, s).value, l).value) && IsScalar(edits[here + [s] + l])
    {
      assert here + ([s] + l) == here + [s] + l && ([s] + l)[1..] == l;
    }
  }

  // Substituting scalars for scalars keeps exactly the places of the document.
  lemma {:induction false} OverlayKeepsPlaces(j: Json, here: Loc, edits: map<Loc, Json>, l: Loc)
    requires ScalarEdits(j, here, edits)
    ensures At(Overlay(j, here, edits), l).Some? <==> At(j, l).Some?
    decreases l
  {
    if here in edits {
      assert here + [] == here;
    } else if l != [] {
      if Child(j, l[0]).Some? {
        ChildOfOverlay(j, here, edits, l[0]);
        ScalarEditsBelow(j, here, edits, l[0]);
        OverlayKeepsPlaces(Child(j, l[0]).value, here + [l[0]], edits, l[1..]);
      }
    }
  }

  // A second substitution at the same places hides the first.
  lemma {:induction false} OverlayTwice(j: Json, here: Loc, first: map<Loc, Json>, second: map<Loc, Json>)
    requires first.Keys == second.Keys
    ensures Overlay(Overlay(j, here, first), here, second) == Overlay(j, here, second)
    decreases j
  {
    if here !in first {
      match j
      case Obj(m) =>
        forall k | k in m
          ensures Overlay(Overlay(m[k], here + [Key(k)], first), here + [Key(k)], second)
               == Overlay(m[k], here + [Key(k)], second)
        {
          OverlayTwice(m[k], here + [Key(k)], first, second);
        }
        assert Overlay(Overlay(j, here, first), here, second).fields == Overlay(j, here, second).fields;
      case List(xs) =>
        forall i | 0 <= i < |xs|
          ensures Overlay(Overlay(xs[i], here + [Index(i)], first), here + [Index(i)], second)
               == Overlay(xs[i], here + [Index(i)], second)
        {
          OverlayTwice(xs[i], here + [Index(i)], first, second);
        }
        assert Overlay(Overlay(j, here, first), here, second).items == Overlay(j, here, second).items;
      case _ =>
    }
  }
}
