// The config-stability gate: deltas between two schema fingerprints, and the order that "no BREAKING finding" is.

module SchemaCompat {
  import opened Wrappers

  /** A field's type, as the fingerprint spells it: a name inside any number of containers. */
  datatype TypeExpr = Named(name: string) | List(elem: TypeExpr) | Table(kind: string, elem: TypeExpr)
  {
    /** The name inside the containers. */
    function Leaf(): string
    {
      match this case Named(n) => n case List(e) => e.Leaf() case Table(_, e) => e.Leaf()
    }
  }

  datatype Field = Field(ty: TypeExpr, optional: bool)

  /** `manual` marks a type with a hand-written deserializer, whose shape the fingerprint does not hold. */
  datatype Decl =
    | Struct(fields: map<string, Field>, manual: bool)
    | Enum(variants: set<string>)
    | Alias(target: TypeExpr)

  type Schema = map<string, Decl>

  datatype Reason =
    | TypeAdded | TypeRemoved | KindChanged | AliasRetargeted
    | OptionalFieldAdded | RequiredFieldAdded | FieldRemoved | FieldRetyped | FieldMadeRequired | FieldRelaxed
    | VariantAppended | VariantRemoved

  /** One finding: the type, the field or variant (empty for the type itself), and what happened to it. */
  datatype Finding = Finding(typeName: string, member: string, reason: Reason)

  /** BREAKING, as opposed to ADDITIVE. */
  predicate Breaking(r: Reason)
  {
    !(r.TypeAdded? || r.OptionalFieldAdded? || r.FieldRelaxed? || r.VariantAppended?)
  }

  // ---------------------------------------------------------------------------------------------
  // Deltas, one by one

  ghost predicate FieldDelta(b: map<string, Field>, f: map<string, Field>, name: string, r: Reason)
  {
    match r
    case OptionalFieldAdded => name !in b && name in f && f[name].optional
    case RequiredFieldAdded => name !in b && name in f && !f[name].optional
    case FieldRemoved => name in b && name !in f
    case FieldRetyped => name in b && name in f && b[name].ty != f[name].ty
    case FieldMadeRequired => name in b && name in f && b[name].optional && !f[name].optional
    case FieldRelaxed => name in b && name in f && !b[name].optional && f[name].optional
    case _ => false
  }

  ghost predicate VariantDelta(b: set<string>, f: set<string>, name: string, r: Reason)
  {
    match r
    case VariantAppended => name in f - b
    case VariantRemoved => name in b - f
    case _ => false
  }

  ghost predicate DeclDelta(b: Decl, f: Decl, member: string, r: Reason)
  {
    match (b, f)
    case (Alias(s), Alias(t)) => member == "" && r == AliasRetargeted && s != t
    case (Struct(bf, _), Struct(ff, _)) => FieldDelta(bf, ff, member, r)
    case (Enum(bv), Enum(fv)) => VariantDelta(bv, fv, member, r)
    case _ => member == "" && r == KindChanged
  }

  ghost predicate Delta(b: Schema, f: Schema, x: Finding)
  {
    if x.typeName in b && x.typeName in f then DeclDelta(b[x.typeName], f[x.typeName], x.member, x.reason)
    else
      && x.member == ""
      && ((x.typeName in f && x.typeName !in b && x.reason == TypeAdded)
          || (x.typeName in b && x.typeName !in f && x.reason == TypeRemoved))
  }

  /** The gate is green. */
  ghost predicate Compatible(b: Schema, f: Schema)
  {
    forall x | Delta(b, f, x) :: !Breaking(x.reason)
  }

  // ---------------------------------------------------------------------------------------------
  // The classifier

  /** The elements of a set in some order; `sorted` fixes the order of the report, nothing else. */
  method Listed(s: set<string>) returns (xs: seq<string>)
    ensures forall x :: x in xs <==> x in s
  {
    xs := [];
    var rest := s;
    while rest != {}
      invariant rest <= s && forall x :: x in xs <==> x in s - rest
    {
      var x :| x in rest;
      xs, rest := xs + [x], rest - {x};
    }
  }

  method ClassifyStruct(tname: string, bf: map<string, Field>, ff: map<string, Field>) returns (findings: seq<Finding>)
    ensures forall x :: x in findings <==> x.typeName == tname && FieldDelta(bf, ff, x.member, x.reason)
  {
    findings := [];
    var names := Listed(bf.Keys + ff.Keys);
    for i := 0 to |names|
      invariant forall x :: x in findings <==>
                  x.typeName == tname && FieldDelta(bf, ff, x.member, x.reason) && x.member in names[..i]
    {
      var fld := names[i];
      assert fld in names && names[..i + 1] == names[..i] + [fld];
      var more := ClassifyField(tname, bf, ff, fld);
      findings := findings + more;
    }
    assert names[..|names|] == names;
  }

  method ClassifyField(tname: string, bf: map<string, Field>, ff: map<string, Field>, fld: string) returns (findings: seq<Finding>)
    requires fld in bf || fld in ff
    ensures forall x :: x in findings <==> x.typeName == tname && x.member == fld && FieldDelta(bf, ff, fld, x.reason)
  {
    findings := [];
    if fld !in bf {
      findings := [Finding(tname, fld, if ff[fld].optional then OptionalFieldAdded else RequiredFieldAdded)];
    } else if fld !in ff {
      findings := [Finding(tname, fld, FieldRemoved)];
    } else {
      var bv, fv := bf[fld], ff[fld];
      if bv.ty != fv.ty {
        findings := [Finding(tname, fld, FieldRetyped)];
      }
      if bv.optional && !fv.optional {
        findings := findings + [Finding(tname, fld, FieldMadeRequired)];
      } else if !bv.optional && fv.optional {
        findings := findings + [Finding(tname, fld, FieldRelaxed)];
      }
    }
  }

  method ClassifyEnum(tname: string, bvar: set<string>, fvar: set<string>) returns (findings: seq<Finding>)
    ensures forall x :: x in findings <==> x.typeName == tname && VariantDelta(bvar, fvar, x.member, x.reason)
  {
    findings := [];
    var appended := Listed(fvar - bvar);
    for i := 0 to |appended|
      invariant forall x :: x in findings <==> x.typeName == tname && x.reason == VariantAppended && x.member in appended[..i]
    {
      findings := findings + [Finding(tname, appended[i], VariantAppended)];
    }
    var removed := Listed(bvar - fvar);
    for i := 0 to |removed|
      invariant forall x :: x in findings <==>
                  x.typeName == tname && ((x.reason == VariantAppended && x.member in appended)
                                          || (x.reason == VariantRemoved && x.member in removed[..i]))
    {
      findings := findings + [Finding(tname, removed[i], VariantRemoved)];
    }
  }

  method ClassifyType(tname: string, b: Schema, f: Schema) returns (findings: seq<Finding>)
    requires tname in b || tname in f
    ensures forall x :: x in findings <==> x.typeName == tname && Delta(b, f, x)
  {
    if tname !in b {
      return [Finding(tname, "", TypeAdded)];
    }
    if tname !in f {
      return [Finding(tname, "", TypeRemoved)];
    }
    match (b[tname], f[tname])
    case (Alias(s), Alias(t)) =>
      findings := if s != t then [Finding(tname, "", AliasRetargeted)] else [];
    case (Struct(bf, _), Struct(ff, _)) =>
      findings := ClassifyStruct(tname, bf, ff);
    case (Enum(bv), Enum(fv)) =>
      findings := ClassifyEnum(tname, bv, fv);
    case _ =>
      findings := [Finding(tname, "", KindChanged)];
  }

  /** `classify`: the findings are the deltas, all of them and nothing else. */
  method Classify(b: Schema, f: Schema) returns (findings: seq<Finding>)
    ensures forall x :: x in findings <==> Delta(b, f, x)
    ensures (forall x | x in findings :: !Breaking(x.reason)) <==> Compatible(b, f)
  {
    findings := [];
    var names := Listed(b.Keys + f.Keys);
    for i := 0 to |names|
      invariant forall x :: x in findings <==> Delta(b, f, x) && x.typeName in names[..i]
    {
      assert names[i] in names && names[..i + 1] == names[..i] + [names[i]];
      var more := ClassifyType(names[i], b, f);
      findings := findings + more;
    }
    assert names[..|names|] == names;
  }

  // ---------------------------------------------------------------------------------------------
  // A partial order

  /** What the absence of a BREAKING finding means for one type. */
  ghost predicate DeclExtends(b: Decl, f: Decl)
  {
    match (b, f)
    case (Alias(s), Alias(t)) => s == t
    case (Enum(bv), Enum(fv)) => bv <= fv
    case (Struct(bf, _), Struct(ff, _)) =>
      && (forall n | n in bf :: n in ff && bf[n].ty == ff[n].ty && (bf[n].optional ==> ff[n].optional))
      && (forall n | n in ff && n !in bf :: ff[n].optional)
    case _ => false
  }

  ghost predicate Extends(b: Schema, f: Schema)
  {
    forall t | t in b :: t in f && DeclExtends(b[t], f[t])
  }

  lemma DeclCompatible(b: Decl, f: Decl)
    ensures (forall m, r | DeclDelta(b, f, m, r) :: !Breaking(r)) <==> DeclExtends(b, f)
  {
    if forall m, r | DeclDelta(b, f, m, r) :: !Breaking(r) {
      match (b, f) {
        case (Alias(s), Alias(t)) =>
          assert DeclDelta(b, f, "", AliasRetargeted) <==> s != t;
        case (Enum(bv), Enum(fv)) =>
          forall v | v in bv ensures v in fv {
            assert v !in fv ==> DeclDelta(b, f, v, VariantRemoved);
          }
        case (Struct(bf, _), Struct(ff, _)) =>
          forall n | n in bf ensures n in ff && bf[n].ty == ff[n].ty && (bf[n].optional ==> ff[n].optional) {
            assert n !in ff ==> DeclDelta(b, f, n, FieldRemoved);
            assert n in ff && bf[n].ty != ff[n].ty ==> DeclDelta(b, f, n, FieldRetyped);
            assert n in ff && bf[n].optional && !ff[n].optional ==> DeclDelta(b, f, n, FieldMadeRequired);
          }
          forall n | n in ff && n !in bf ensures ff[n].optional {
            assert !ff[n].optional ==> DeclDelta(b, f, n, RequiredFieldAdded);
          }
        case _ =>
          assert DeclDelta(b, f, "", KindChanged);
      }
    }
  }

  lemma CompatibleIsExtension(b: Schema, f: Schema)
    ensures Compatible(b, f) <==> Extends(b, f)
  {
    if Compatible(b, f) {
      forall t | t in b ensures t in f && DeclExtends(b[t], f[t]) {
        assert t !in f ==> Delta(b, f, Finding(t, "", TypeRemoved));
        if t in f {
          forall m, r | DeclDelta(b[t], f[t], m, r) ensures !Breaking(r) {
            assert Delta(b, f, Finding(t, m, r));
          }
          DeclCompatible(b[t], f[t]);
        }
      }
    }
    if Extends(b, f) {
      forall x | Delta(b, f, x) ensures !Breaking(x.reason) {
        if x.typeName in b {
          DeclCompatible(b[x.typeName], f[x.typeName]);
        }
      }
    }
  }

  lemma CompatibleReflexive(b: Schema)
    ensures Compatible(b, b)
  {
    CompatibleIsExtension(b, b);
  }

  lemma CompatibleTransitive(a: Schema, b: Schema, c: Schema)
    requires Compatible(a, b) && Compatible(b, c)
    ensures Compatible(a, c)
  {
    CompatibleIsExtension(a, b);
    CompatibleIsExtension(b, c);
    CompatibleIsExtension(a, c);
  }

  /** Gating each release against the one before gates every release against the first. */
  lemma {:induction false} ReleasesCompose(releases: seq<Schema>, i: nat, j: nat)
    requires i <= j < |releases|
    requires forall k | 0 <= k < |releases| - 1 :: Compatible(releases[k], releases[k + 1])
    ensures Compatible(releases[i], releases[j])
    decreases j
  {
    if i == j {
      CompatibleReflexive(releases[i]);
    } else {
      ReleasesCompose(releases, i, j - 1);
      CompatibleTransitive(releases[i], releases[j - 1], releases[j]);
    }
  }

  /** Nothing is reported of two schemas exactly if they differ in no more than `deserialize` markers. */
  lemma SilentExactly(b: Schema, f: Schema)
    ensures (forall x :: !Delta(b, f, x)) <==> b.Keys == f.Keys && forall t | t in b :: Unmarked(b[t]) == Unmarked(f[t])
  {
    if forall x :: !Delta(b, f, x) {
      forall t ensures t in b <==> t in f {
        assert !Delta(b, f, Finding(t, "", TypeAdded)) && !Delta(b, f, Finding(t, "", TypeRemoved));
      }
      forall t | t in b ensures Unmarked(b[t]) == Unmarked(f[t]) {
        forall m, r ensures !DeclDelta(b[t], f[t], m, r) {
          assert !Delta(b, f, Finding(t, m, r));
        }
        SilentDecls(b[t], f[t]);
      }
    }
  }

  lemma SilentDecls(b: Decl, f: Decl)
    requires forall m, r :: !DeclDelta(b, f, m, r)
    ensures Unmarked(b) == Unmarked(f)
  {
    DeclCompatible(b, f);
    match (b, f) {
      case (Alias(_), Alias(_)) =>
      case (Enum(bv), Enum(fv)) =>
        forall v | v in fv ensures v in bv {
          assert !DeclDelta(b, f, v, VariantAppended);
        }
      case (Struct(bf, _), Struct(ff, _)) =>
        forall n | n in ff ensures n in bf && bf[n] == ff[n] {
          assert !DeclDelta(b, f, n, OptionalFieldAdded) && !DeclDelta(b, f, n, FieldRelaxed);
        }
        assert bf == ff;
      case _ =>
    }
  }

  function Unmarked(d: Decl): Decl { if d.Struct? then d.(manual := false) else d }

  /** Two schemas that extend each other differ in no more than `deserialize` markers. */
  lemma CompatibleAntisymmetric(b: Schema, f: Schema)
    requires Compatible(b, f) && Compatible(f, b)
    ensures b.Keys == f.Keys && forall t | t in b :: Unmarked(b[t]) == Unmarked(f[t])
  {
    CompatibleIsExtension(b, f);
    CompatibleIsExtension(f, b);
    forall t | t in b ensures Unmarked(b[t]) == Unmarked(f[t]) {
      assert DeclExtends(b[t], f[t]) && DeclExtends(f[t], b[t]);
      if b[t].Struct? {
        assert b[t].fields.Keys == f[t].fields.Keys;
        assert b[t].fields == f[t].fields;
      }
    }
  }
}
