// What the config-stability gate promises about the configurations that two releases accept.

module ConfigAcceptance {
  import opened Wrappers
  import opened SchemaCompat

  datatype Value = Null | Number(n: int) | Text(text: string) | Items(items: seq<Value>) | Entries(entries: map<string, Value>)

  /** Code that decides on values by itself: a type's hand-written deserializer, or the payload of a variant. */
  datatype Reader = ByHand(name: string) | Payload(name: string, variant: string)

  /** The values that such code takes. */
  type Readers = (Reader, Value) -> bool

  /**
   * What the source of a release says and the fingerprint does not: the declared types that are read by hand; the
   * structs that ignore unknown keys, and those that default as a whole; the variants that carry a payload; the
   * optional fields that may be null (an `Option`, as opposed to a field with a default); and, by struct and key,
   * which field an alternative spelling stands for.
   */
  datatype Surface = Surface(
    byHand: set<string>, lenient: set<string>, defaulted: set<string>,
    carrying: set<(string, string)>, nullable: set<(string, string)>, aliases: map<(string, string), string>)

  datatype Release = Release(schema: Schema, surface: Surface)
  {
    /** What the fingerprint records for a name; an alias is filed under `type <name>`. */
    function Lookup(name: string): Option<Decl>
    {
      if name in schema then Some(schema[name])
      else if "type " + name in schema then Some(schema["type " + name])
      else None
    }

    /** A name whose values the fingerprint says nothing about. */
    predicate Opaque(name: string)
    {
      match Lookup(name) case None => true case Some(d) => name in surface.byHand || (d.Struct? && d.manual)
    }

    function Fields(name: string): map<string, Field>
    {
      match Lookup(name) case Some(Struct(fields, _)) => fields case _ => map[]
    }

    /** The field that a key of the struct is read as. */
    function Meaning(name: string, key: string): (field: Option<string>)
      ensures field.Some? ==> field.value in Fields(name)
    {
      if key in Fields(name) then Some(key)
      else if (name, key) in surface.aliases && surface.aliases[(name, key)] in Fields(name) then Some(surface.aliases[(name, key)])
      else None
    }

    /** The field must be there. */
    predicate Required(name: string, x: string)
    {
      x in Fields(name) && !Fields(name)[x].optional && name !in surface.defaulted
    }

    /** A struct whose shape the fingerprint holds. */
    predicate IsStruct(name: string)
    {
      !Opaque(name) && Lookup(name).value.Struct?
    }

    /** No name is both a type and an alias. */
    ghost predicate Extracted()
    {
      forall t | t in schema :: "type " + t !in schema
    }

    /** A name that the schema declares, or that a field or an alias of it refers to. */
    ghost predicate Mentions(name: string)
    {
      name in schema || exists t | t in schema :: RefersTo(schema[t], name)
    }
  }

  ghost predicate RefersTo(d: Decl, name: string)
  {
    match d
    case Alias(target) => target.Leaf() == name
    case Struct(fields, _) => exists x | x in fields :: fields[x].ty.Leaf() == name
    case Enum(_) => false
  }

  /** The value deserializes at the type, with no more than `k` names and containers on any path. */
  ghost predicate Within(r: Release, readers: Readers, t: TypeExpr, v: Value, k: nat)
    decreases k, 1
  {
    k > 0 &&
    match t
    case List(elem) => v.Items? && forall i | 0 <= i < |v.items| :: Within(r, readers, elem, v.items[i], k - 1)
    case Table(_, elem) => v.Entries? && forall key | key in v.entries :: Within(r, readers, elem, v.entries[key], k - 1)
    case Named(name) =>
      if r.Opaque(name) then readers(ByHand(name), v)
      else
        match r.Lookup(name).value
        case Alias(target) => Within(r, readers, target, v, k - 1)
        case Enum(variants) => exists w | w in variants :: TakesVariant(r, readers, name, w, v)
        case Struct(_, _) =>
          && v.Entries? && KeysFit(r, name, v.entries)
          && forall key | key in v.entries && r.Meaning(name, key).Some? ::
               EntryWithin(r, readers, name, r.Meaning(name, key).value, v.entries[key], k - 1)
  }

  /** The value may stand for the field. */
  ghost predicate EntryWithin(r: Release, readers: Readers, name: string, x: string, v: Value, k: nat)
    requires x in r.Fields(name)
    decreases k, 2
  {
    IsNull(r, name, x, v) || Within(r, readers, r.Fields(name)[x].ty, v, k)
  }

  /** Only a lenient struct has unknown keys; no field has two keys; every required one has a key. */
  ghost predicate KeysFit(r: Release, name: string, entries: map<string, Value>)
  {
    && (forall key | key in entries :: r.Meaning(name, key).Some? || name in r.surface.lenient)
    && (forall i, j | i in entries && j in entries && i != j ::
          r.Meaning(name, i).Some? ==> r.Meaning(name, i) != r.Meaning(name, j))
    && (forall x | r.Required(name, x) :: exists key :: key in entries && r.Meaning(name, key) == Some(x))
  }

  predicate IsNull(r: Release, name: string, x: string, v: Value)
    requires x in r.Fields(name)
  {
    v == Null && r.Fields(name)[x].optional && (name, x) in r.surface.nullable
  }

  predicate TakesVariant(r: Release, readers: Readers, name: string, w: string, v: Value)
  {
    if (name, w) in r.surface.carrying then readers(Payload(name, w), v) else v == Text(w)
  }

  ghost predicate Accepts(r: Release, readers: Readers, t: TypeExpr, v: Value)
  {
    exists k :: Within(r, readers, t, v, k)
  }

  /** Only the code in `touched` changed. */
  ghost predicate Unchanged(before: Readers, after: Readers, touched: set<Reader>)
  {
    forall x, v | x !in touched :: before(x, v) == after(x, v)
  }

  /** Whatever the code that the fingerprint cannot see takes, every accepted configuration stays accepted. */
  ghost predicate PreservesAcceptance(b: Release, f: Release, touched: set<Reader>)
  {
    forall before: Readers, after: Readers, t: TypeExpr, v: Value |
      Unchanged(before, after, touched) && b.Mentions(t.Leaf()) && Accepts(b, before, t, v) :: Accepts(f, after, t, v)
  }

  // ---------------------------------------------------------------------------------------------
  // Types that have a value

  /** A smallest value of the type, if one shows within `k` names and containers. */
  ghost function Sample(r: Release, t: TypeExpr, k: nat): Option<Value>
    decreases k
  {
    if k == 0 then None
    else match t
      case List(_) => Some(Items([]))
      case Table(_, _) => Some(Entries(map[]))
      case Named(name) =>
        if r.Opaque(name) then Some(Text(""))
        else match r.Lookup(name).value
          case Alias(target) => Sample(r, target, k - 1)
          case Enum(variants) => if variants == {} then None else var w :| w in variants; Some(Text(w))
          case Struct(fields, _) =>
            if forall x | r.Required(name, x) :: Sample(r, r.Fields(name)[x].ty, k - 1).Some?
            then Some(Entries(map x | x in fields && r.Required(name, x) :: Sample(r, r.Fields(name)[x].ty, k - 1).value))
            else None
  }

  /** Some configuration can hold a value of the type. */
  ghost predicate Inhabited(r: Release, name: string)
  {
    exists k :: Sample(r, Named(name), k).Some?
  }

  /** Values that no recorded shape takes. */
  predicate Odd(v: Value) { v == Null || v == Number(0) }

  /** The code takes everything but odd values, save for `but`. */
  ghost predicate Generous(readers: Readers, but: Option<Reader>)
  {
    forall x, v | !Odd(v) && Some(x) != but :: readers(x, v)
  }

  /** The release never asks `x` about a value. */
  ghost predicate Silent(r: Release, x: Reader)
  {
    match x
    case ByHand(name) => !r.Opaque(name)
    case Payload(name, w) => (name, w) !in r.surface.carrying
  }

  lemma {:induction false} SampleIsWithin(r: Release, readers: Readers, but: Option<Reader>, t: TypeExpr, k: nat)
    requires Generous(readers, but) && (but.Some? ==> Silent(r, but.value)) && Sample(r, t, k).Some?
    ensures Within(r, readers, t, Sample(r, t, k).value, k) && !Odd(Sample(r, t, k).value)
    decreases k
  {
    if t.Named? && !r.Opaque(t.name) {
      match r.Lookup(t.name).value {
        case Alias(target) => SampleIsWithin(r, readers, but, target, k - 1);
        case Enum(variants) =>
          var w := Sample(r, t, k).value.text;
          assert TakesVariant(r, readers, t.name, w, Text(w));
        case Struct(fields, _) =>
          var entries := Sample(r, t, k).value.entries;
          forall x | x in entries
            ensures r.Meaning(t.name, x) == Some(x) && Within(r, readers, r.Fields(t.name)[x].ty, entries[x], k - 1)
          {
            SampleIsWithin(r, readers, but, r.Fields(t.name)[x].ty, k - 1);
          }
      }
    }
  }

  /** What any code accepts has a sample. */
  lemma {:induction false} AcceptedHasSample(r: Release, readers: Readers, t: TypeExpr, v: Value, k: nat)
    requires Within(r, readers, t, v, k)
    ensures Sample(r, t, k).Some?
    decreases k
  {
    if t.Named? && !r.Opaque(t.name) {
      match r.Lookup(t.name).value {
        case Alias(target) => AcceptedHasSample(r, readers, target, v, k - 1);
        case Enum(_) =>
        case Struct(fields, _) =>
          forall x | r.Required(t.name, x) ensures Sample(r, r.Fields(t.name)[x].ty, k - 1).Some? {
            var key :| key in v.entries && r.Meaning(t.name, key) == Some(x);
            assert EntryWithin(r, readers, t.name, x, v.entries[key], k - 1);
            AcceptedHasSample(r, readers, r.Fields(t.name)[x].ty, v.entries[key], k - 1);
          }
      }
    }
  }

  /** An odd value is taken by nothing but code. */
  lemma {:induction false} OddNeedsReader(r: Release, readers: Readers, t: TypeExpr, v: Value, k: nat)
    requires Odd(v) && forall x | readers(x, v) :: Silent(r, x)
    ensures !Within(r, readers, t, v, k)
    decreases k
  {
    if k > 0 && t.Named? && !r.Opaque(t.name) {
      var d := r.Lookup(t.name).value;
      if d.Alias? {
        OddNeedsReader(r, readers, d.target, v, k - 1);
      }
    }
  }

  // ---------------------------------------------------------------------------------------------
  // The condition

  /** A type that the fingerprint says nothing about stays one, and its code stays as it is. */
  ghost predicate CodeKept(b: Release, f: Release, touched: set<Reader>, name: string)
  {
    b.Opaque(name) ==> f.Opaque(name) && ByHand(name) !in touched
  }

  /** A type with a recorded shape and a value stays one. */
  ghost predicate ShapeKept(b: Release, f: Release, name: string)
  {
    !b.Opaque(name) && Inhabited(b, name) ==> !f.Opaque(name)
  }

  /** A variant gains or loses no payload, and its payload stays as it is. */
  ghost predicate VariantsKept(b: Release, f: Release, touched: set<Reader>, name: string)
  {
    !b.Opaque(name) && b.Lookup(name).value.Enum? ==>
      forall w | w in b.Lookup(name).value.variants ::
        && ((name, w) in b.surface.carrying <==> (name, w) in f.surface.carrying)
        && ((name, w) in b.surface.carrying ==> Payload(name, w) !in touched)
  }

  /** A struct that ignores unknown keys still does, and gets to know no new one. */
  ghost predicate LeniencyKept(b: Release, f: Release, name: string)
  {
    b.IsStruct(name) && Inhabited(b, name) && name in b.surface.lenient ==>
      name in f.surface.lenient && forall key | f.Meaning(name, key).Some? :: b.Meaning(name, key).Some?
  }

  /** A field that may be null still may. */
  ghost predicate NullsKept(b: Release, f: Release, name: string)
  {
    b.IsStruct(name) && Inhabited(b, name) ==>
      forall x | x in b.Fields(name) && b.Fields(name)[x].optional ::
        (name, x) in b.surface.nullable ==> (name, x) in f.surface.nullable
  }

  /** A struct that defaults as a whole gets no required field. */
  ghost predicate DefaultsKept(b: Release, f: Release, name: string)
  {
    b.IsStruct(name) && name in b.surface.defaulted ==> forall x :: !f.Required(name, x)
  }

  /** Something can stand for the field. */
  ghost predicate Fillable(r: Release, name: string, x: string)
    requires x in r.Fields(name)
  {
    IsNull(r, name, x, Null) || exists k :: Sample(r, r.Fields(name)[x].ty, k).Some?
  }

  /** An alternative spelling of a field still is one, or is ignored for a field that need not be there. */
  ghost predicate SpellingKept(b: Release, f: Release, name: string, key: string, x: string)
  {
    || f.Meaning(name, key) == Some(x)
    || (f.Meaning(name, key) == None && name in f.surface.lenient && !f.Required(name, x))
  }

  ghost predicate AliasesKept(b: Release, f: Release, name: string)
  {
    b.IsStruct(name) && Inhabited(b, name) ==>
      forall key | b.Meaning(name, key).Some? && Fillable(b, name, b.Meaning(name, key).value) ::
        SpellingKept(b, f, name, key, b.Meaning(name, key).value)
  }

  ghost predicate NameKept(b: Release, f: Release, touched: set<Reader>, name: string)
  {
    && CodeKept(b, f, touched, name) && ShapeKept(b, f, name)
    && VariantsKept(b, f, touched, name) && LeniencyKept(b, f, name) && NullsKept(b, f, name)
    && DefaultsKept(b, f, name) && AliasesKept(b, f, name)
  }

  /** All of it, for every name that the baseline uses. */
  ghost predicate Kept(b: Release, f: Release, touched: set<Reader>)
  {
    forall name | b.Mentions(name) :: NameKept(b, f, touched, name)
  }

  // ---------------------------------------------------------------------------------------------
  // It suffices

  lemma LookupExtends(b: Release, f: Release, name: string)
    requires Extends(b.schema, f.schema) && f.Extracted() && b.Lookup(name).Some?
    ensures f.Lookup(name).Some? && DeclExtends(b.Lookup(name).value, f.Lookup(name).value)
    ensures exists t | t in b.schema :: b.schema[t] == b.Lookup(name).value
  {
    var t := if name in b.schema then name else "type " + name;
    assert t in b.schema && b.schema[t] == b.Lookup(name).value;
  }

  lemma Refers(b: Release, d: Decl, name: string)
    requires (exists t | t in b.schema :: b.schema[t] == d) && RefersTo(d, name)
    ensures b.Mentions(name)
  {
  }

  lemma {:induction false} AcceptanceGrows(b: Release, f: Release, touched: set<Reader>, before: Readers, after: Readers,
                                           t: TypeExpr, v: Value, k: nat)
    requires Extends(b.schema, f.schema) && f.Extracted() && Kept(b, f, touched) && Unchanged(before, after, touched)
    requires b.Mentions(t.Leaf()) && Within(b, before, t, v, k)
    ensures Within(f, after, t, v, k)
    decreases k, 1
  {
    match t {
      case List(elem) =>
        forall i | 0 <= i < |v.items| ensures Within(f, after, elem, v.items[i], k - 1) {
          AcceptanceGrows(b, f, touched, before, after, elem, v.items[i], k - 1);
        }
      case Table(_, elem) =>
        forall key | key in v.entries ensures Within(f, after, elem, v.entries[key], k - 1) {
          AcceptanceGrows(b, f, touched, before, after, elem, v.entries[key], k - 1);
        }
      case Named(name) =>
        assert NameKept(b, f, touched, name);
        if !b.Opaque(name) {
          AcceptedHasSample(b, before, t, v, k);
          LookupExtends(b, f, name);
          match b.Lookup(name).value {
            case Alias(target) =>
              Refers(b, b.Lookup(name).value, target.Leaf());
              AcceptanceGrows(b, f, touched, before, after, target, v, k - 1);
            case Enum(variants) =>
              var w :| w in variants && TakesVariant(b, before, name, w, v);
              assert w in f.Lookup(name).value.variants && TakesVariant(f, after, name, w, v);
            case Struct(_, _) =>
              StructAcceptanceGrows(b, f, touched, before, after, name, v, k);
          }
        }
    }
  }

  lemma {:induction false} StructAcceptanceGrows(b: Release, f: Release, touched: set<Reader>, before: Readers, after: Readers,
                                                 name: string, v: Value, k: nat)
    requires Extends(b.schema, f.schema) && f.Extracted() && Kept(b, f, touched) && Unchanged(before, after, touched)
    requires b.Mentions(name) && b.IsStruct(name) && f.IsStruct(name) && Inhabited(b, name)
    requires Within(b, before, Named(name), v, k)
    ensures Within(f, after, Named(name), v, k)
    decreases k, 0
  {
    LookupExtends(b, f, name);
    assert NameKept(b, f, touched, name);
    forall key | key in v.entries && b.Meaning(name, key).Some?
      ensures SpellingKept(b, f, name, key, b.Meaning(name, key).value)
    {
      EntryFills(b, before, name, b.Meaning(name, key).value, v.entries[key], k - 1);
    }
    KeysStillFit(b, f, name, v.entries);
    forall key | key in v.entries && f.Meaning(name, key).Some?
      ensures EntryWithin(f, after, name, f.Meaning(name, key).value, v.entries[key], k - 1)
    {
      var x := b.Meaning(name, key).value;
      assert EntryWithin(b, before, name, x, v.entries[key], k - 1);
      if !IsNull(b, name, x, v.entries[key]) {
        assert RefersTo(b.Lookup(name).value, b.Fields(name)[x].ty.Leaf());
        Refers(b, b.Lookup(name).value, b.Fields(name)[x].ty.Leaf());
        AcceptanceGrows(b, f, touched, before, after, b.Fields(name)[x].ty, v.entries[key], k - 1);
      }
    }
  }

  lemma EntryFills(r: Release, readers: Readers, name: string, x: string, v: Value, k: nat)
    requires x in r.Fields(name) && EntryWithin(r, readers, name, x, v, k)
    ensures Fillable(r, name, x)
  {
    if !IsNull(r, name, x, v) {
      AcceptedHasSample(r, readers, r.Fields(name)[x].ty, v, k);
    }
  }

  /** Every key is read as before, or ignored where it may be. */
  lemma KeysStillFit(b: Release, f: Release, name: string, entries: map<string, Value>)
    requires b.IsStruct(name) && f.IsStruct(name) && DeclExtends(b.Lookup(name).value, f.Lookup(name).value)
    requires Inhabited(b, name) && LeniencyKept(b, f, name) && DefaultsKept(b, f, name) && KeysFit(b, name, entries)
    requires forall key | key in entries && b.Meaning(name, key).Some? :: SpellingKept(b, f, name, key, b.Meaning(name, key).value)
    ensures KeysFit(f, name, entries)
    ensures forall key | key in entries && f.Meaning(name, key).Some? :: f.Meaning(name, key) == b.Meaning(name, key)
  {
    forall key | key in entries && f.Meaning(name, key).Some? ensures f.Meaning(name, key) == b.Meaning(name, key) {
      assert b.Meaning(name, key).Some? || name in b.surface.lenient;
    }
    forall x | f.Required(name, x) ensures exists key :: key in entries && f.Meaning(name, key) == Some(x) {
      assert b.Required(name, x);
      var key :| key in entries && b.Meaning(name, key) == Some(x);
      assert SpellingKept(b, f, name, key, x);
    }
  }

  // ---------------------------------------------------------------------------------------------
  // It is needed: one configuration for each way to fail

  /** A new shape, or new code, may reject what a hand-written deserializer took. */
  lemma CodeChangeBreaks(b: Release, f: Release, touched: set<Reader>, name: string)
    requires b.Mentions(name) && !CodeKept(b, f, touched, name)
    ensures !PreservesAcceptance(b, f, touched)
  {
    var before: Readers := (x, v) => x == ByHand(name);
    var after: Readers := (x, v) => x == ByHand(name) && x !in touched;
    assert Within(b, before, Named(name), Number(0), 1);
    forall k: nat ensures !Within(f, after, Named(name), Number(0), k) {
      OddNeedsReader(f, after, Named(name), Number(0), k);
    }
    Breaks(b, f, touched, before, after, Named(name), Number(0));
  }

  lemma Breaks(b: Release, f: Release, touched: set<Reader>, before: Readers, after: Readers, t: TypeExpr, v: Value)
    requires Unchanged(before, after, touched) && b.Mentions(t.Leaf()) && Accepts(b, before, t, v) && !Accepts(f, after, t, v)
    ensures !PreservesAcceptance(b, f, touched)
  {
  }

  /** Code that replaces a recorded shape may reject what the shape took. */
  lemma ShapeChangeBreaks(b: Release, f: Release, touched: set<Reader>, name: string)
    requires b.Mentions(name) && !ShapeKept(b, f, name)
    ensures !PreservesAcceptance(b, f, touched)
  {
    var readers: Readers := (x, v) => !Odd(v) && x != ByHand(name);
    var k :| Sample(b, Named(name), k).Some?;
    SampleIsWithin(b, readers, Some(ByHand(name)), Named(name), k);
    Breaks(b, f, touched, readers, readers, Named(name), Sample(b, Named(name), k).value);
  }

  /** A payload that comes, goes or changes may reject what the variant took. */
  lemma VariantChangeBreaks(b: Release, f: Release, touched: set<Reader>, name: string)
    requires Extends(b.schema, f.schema) && f.Extracted() && ShapeKept(b, f, name)
    requires b.Mentions(name) && !VariantsKept(b, f, touched, name)
    ensures !PreservesAcceptance(b, f, touched)
  {
    var w :| w in b.Lookup(name).value.variants && !(((name, w) in b.surface.carrying <==> (name, w) in f.surface.carrying)
                                                     && ((name, w) in b.surface.carrying ==> Payload(name, w) !in touched));
    assert Sample(b, Named(name), 1).Some?;
    LookupExtends(b, f, name);
    if (name, w) in b.surface.carrying {
      var before: Readers := (x, v) => x == Payload(name, w);
      var after: Readers := (x, v) => x == Payload(name, w) && x !in touched;
      assert TakesVariant(b, before, name, w, Number(0));
      assert Within(b, before, Named(name), Number(0), 1);
      forall k: nat ensures !Within(f, after, Named(name), Number(0), k) {
        OddNeedsReader(f, after, Named(name), Number(0), k);
      }
      Breaks(b, f, touched, before, after, Named(name), Number(0));
    } else {
      var readers: Readers := (x, v) => false;
      assert TakesVariant(b, readers, name, w, Text(w));
      assert Within(b, readers, Named(name), Text(w), 1);
      forall k: nat ensures !Within(f, readers, Named(name), Text(w), k) {
      }
      Breaks(b, f, touched, readers, readers, Named(name), Text(w));
    }
  }

  lemma {:induction false} LongestKey(keys: set<string>) returns (n: nat)
    ensures forall x | x in keys :: |x| <= n
  {
    if keys == {} {
      n := 0;
    } else {
      var x :| x in keys;
      var m := LongestKey(keys - {x});
      n := if |x| <= m then m else |x|;
    }
  }

  /** A key that neither release gives a meaning to. */
  lemma StrayKey(b: Release, f: Release, name: string) returns (key: string)
    ensures b.Meaning(name, key) == None && f.Meaning(name, key) == None
  {
    var used := b.Fields(name).Keys + f.Fields(name).Keys
                + (set a | a in b.surface.aliases :: a.1) + (set a | a in f.surface.aliases :: a.1);
    var n := LongestKey(used);
    key := seq(n + 1, i => 'x');
    assert key !in used;
    assert (name, key) in b.surface.aliases ==> (name, key).1 in used;
    assert (name, key) in f.surface.aliases ==> (name, key).1 in used;
  }

  /** The required fields of the struct, with values. */
  lemma SampleEntries(r: Release, readers: Readers, name: string) returns (entries: map<string, Value>, k: nat)
    requires Generous(readers, None) && Inhabited(r, name) && r.IsStruct(name)
    ensures forall i :: i in entries <==> r.Required(name, i)
    ensures forall i | i in entries :: r.Meaning(name, i) == Some(i) && EntryWithin(r, readers, name, i, entries[i], k)
  {
    var n: nat :| Sample(r, Named(name), n).Some?;
    SampleIsWithin(r, readers, None, Named(name), n);
    entries, k := Sample(r, Named(name), n).value.entries, n - 1;
    forall i | i in entries ensures r.Meaning(name, i) == Some(i) && EntryWithin(r, readers, name, i, entries[i], k) {
      assert r.Required(name, i);
    }
  }

  lemma StructAccepts(r: Release, readers: Readers, name: string, entries: map<string, Value>, k: nat)
    requires r.IsStruct(name) && KeysFit(r, name, entries)
    requires forall i | i in entries && r.Meaning(name, i).Some? ::
               EntryWithin(r, readers, name, r.Meaning(name, i).value, entries[i], k)
    ensures Accepts(r, readers, Named(name), Entries(entries))
  {
    assert Within(r, readers, Named(name), Entries(entries), k + 1);
  }

  /** A value of the struct, with one more entry that it does not mind. */
  lemma SampleWith(r: Release, readers: Readers, name: string, key: string, odd: Value) returns (v: Value)
    requires Generous(readers, None) && Inhabited(r, name) && r.IsStruct(name)
    requires if key in r.Fields(name) then IsNull(r, name, key, odd)
             else r.Meaning(name, key) == None && name in r.surface.lenient
    ensures v.Entries? && key in v.entries && v.entries[key] == odd && Accepts(r, readers, Named(name), v)
  {
    var entries, k := SampleEntries(r, readers, name);
    var longer := entries[key := odd];
    forall x | r.Required(name, x) ensures exists i :: i in longer && r.Meaning(name, i) == Some(x) {
      assert r.Meaning(name, x) == Some(x);
    }
    StructAccepts(r, readers, name, longer, k);
    v := Entries(longer);
  }

  /** A key that the lenient struct does not know and the fresh one takes to be something. */
  lemma LeniencyChangeBreaks(b: Release, f: Release, touched: set<Reader>, name: string)
    requires Extends(b.schema, f.schema) && f.Extracted() && ShapeKept(b, f, name)
    requires b.Mentions(name) && !LeniencyKept(b, f, name)
    ensures !PreservesAcceptance(b, f, touched)
  {
    LookupExtends(b, f, name);
    var key: string;
    if name in f.surface.lenient {
      key :| f.Meaning(name, key).Some? && b.Meaning(name, key).None?;
    } else {
      key := StrayKey(b, f, name);
    }
    var readers: Readers := (x, v) => !Odd(v);
    var v := SampleWith(b, readers, name, key, Number(0));
    forall j: nat ensures !Within(f, readers, Named(name), v, j) {
      if j > 0 && f.Meaning(name, key).Some? {
        OddNeedsReader(f, readers, f.Fields(name)[f.Meaning(name, key).value].ty, Number(0), j - 1);
      }
    }
    Breaks(b, f, touched, readers, readers, Named(name), v);
  }

  /** A field that had no value and must have one now. */
  lemma NullChangeBreaks(b: Release, f: Release, touched: set<Reader>, name: string)
    requires Extends(b.schema, f.schema) && f.Extracted() && ShapeKept(b, f, name)
    requires b.Mentions(name) && !NullsKept(b, f, name)
    ensures !PreservesAcceptance(b, f, touched)
  {
    LookupExtends(b, f, name);
    var x :| x in b.Fields(name) && b.Fields(name)[x].optional && (name, x) in b.surface.nullable && (name, x) !in f.surface.nullable;
    var readers: Readers := (r, v) => !Odd(v);
    var v := SampleWith(b, readers, name, x, Null);
    forall j: nat ensures !Within(f, readers, Named(name), v, j) {
      if j > 0 {
        assert f.Meaning(name, x) == Some(x);
        OddNeedsReader(f, readers, f.Fields(name)[x].ty, Null, j - 1);
      }
    }
    Breaks(b, f, touched, readers, readers, Named(name), v);
  }

  /** An empty table, where a field has come to be required. */
  lemma DefaultChangeBreaks(b: Release, f: Release, touched: set<Reader>, name: string)
    requires Extends(b.schema, f.schema) && f.Extracted() && ShapeKept(b, f, name)
    requires b.Mentions(name) && !DefaultsKept(b, f, name)
    ensures !PreservesAcceptance(b, f, touched)
  {
    assert Sample(b, Named(name), 1).Some?;
    LookupExtends(b, f, name);
    var readers: Readers := (x, v) => false;
    assert Within(b, readers, Named(name), Entries(map[]), 1);
    Breaks(b, f, touched, readers, readers, Named(name), Entries(map[]));
  }

  /** No alternative spelling of a field of the baseline has become a spelling of another one. */
  ghost predicate SpellingsApart(b: Release, f: Release)
  {
    forall name, key | b.IsStruct(name) && b.Meaning(name, key).Some? && f.Meaning(name, key).Some? ::
      f.Meaning(name, key) == b.Meaning(name, key)
  }

  /** A field under a spelling that is gone. */
  lemma AliasChangeBreaks(b: Release, f: Release, touched: set<Reader>, name: string)
    requires Extends(b.schema, f.schema) && f.Extracted() && ShapeKept(b, f, name) && SpellingsApart(b, f)
    requires b.Mentions(name) && !AliasesKept(b, f, name)
    ensures !PreservesAcceptance(b, f, touched)
  {
    LookupExtends(b, f, name);
    var key :| b.Meaning(name, key).Some? && Fillable(b, name, b.Meaning(name, key).value)
               && !SpellingKept(b, f, name, key, b.Meaning(name, key).value);
    var x := b.Meaning(name, key).value;
    assert key != x;
    var readers: Readers := (r, v) => !Odd(v);
    var v := Respelled(b, readers, name, key, x);
    forall j: nat ensures !Within(f, readers, Named(name), v, j) {
      if f.Required(name, x) {
        assert forall i | i in v.entries && i != key :: b.Meaning(name, i).Some? && b.Meaning(name, i) != Some(x);
      }
    }
    Breaks(b, f, touched, readers, readers, Named(name), v);
  }

  /** A value of the struct in which the field goes by the other spelling. */
  lemma Respelled(r: Release, readers: Readers, name: string, key: string, x: string) returns (v: Value)
    requires Generous(readers, None) && Inhabited(r, name) && r.IsStruct(name)
    requires key !in r.Fields(name) && r.Meaning(name, key) == Some(x) && Fillable(r, name, x)
    ensures v.Entries? && key in v.entries && Accepts(r, readers, Named(name), v)
    ensures forall i | i in v.entries && i != key :: r.Meaning(name, i) == Some(i) && i != x
  {
    var entries, k := SampleEntries(r, readers, name);
    var fill, j := Filled(r, readers, name, x);
    var spelled := (entries - {x})[key := fill];
    RespelledFits(r, name, key, x, entries, fill);
    var m := if k <= j then j else k;
    forall i | i in spelled && r.Meaning(name, i).Some?
      ensures EntryWithin(r, readers, name, r.Meaning(name, i).value, spelled[i], m)
    {
      if i == key {
        EntryGrows(r, readers, name, x, fill, j, m);
      } else {
        EntryGrows(r, readers, name, i, entries[i], k, m);
      }
    }
    StructAccepts(r, readers, name, spelled, m);
    v := Entries(spelled);
  }

  lemma RespelledFits(r: Release, name: string, key: string, x: string, entries: map<string, Value>, fill: Value)
    requires key !in r.Fields(name) && r.Meaning(name, key) == Some(x)
    requires forall i :: i in entries <==> r.Required(name, i)
    ensures KeysFit(r, name, (entries - {x})[key := fill])
    ensures forall i | i in (entries - {x})[key := fill] && i != key :: r.Meaning(name, i) == Some(i) && i != x
  {
    forall y | r.Required(name, y)
      ensures exists i :: i in (entries - {x})[key := fill] && r.Meaning(name, i) == Some(y)
    {
      assert r.Meaning(name, if y == x then key else y) == Some(y);
    }
  }

  lemma Filled(r: Release, readers: Readers, name: string, x: string) returns (v: Value, k: nat)
    requires Generous(readers, None) && x in r.Fields(name) && Fillable(r, name, x)
    ensures EntryWithin(r, readers, name, x, v, k)
  {
    if IsNull(r, name, x, Null) {
      v, k := Null, 0;
    } else {
      k :| Sample(r, r.Fields(name)[x].ty, k).Some?;
      SampleIsWithin(r, readers, None, r.Fields(name)[x].ty, k);
      v := Sample(r, r.Fields(name)[x].ty, k).value;
    }
  }

  lemma EntryGrows(r: Release, readers: Readers, name: string, x: string, v: Value, j: nat, k: nat)
    requires j <= k && x in r.Fields(name) && EntryWithin(r, readers, name, x, v, j)
    ensures EntryWithin(r, readers, name, x, v, k)
  {
    if !IsNull(r, name, x, v) {
      WithinGrows(r, readers, r.Fields(name)[x].ty, v, j, k);
    }
  }

  lemma {:induction false} WithinGrows(r: Release, readers: Readers, t: TypeExpr, v: Value, j: nat, k: nat)
    requires j <= k && Within(r, readers, t, v, j)
    ensures Within(r, readers, t, v, k)
    decreases j
  {
    match t {
      case List(elem) =>
        forall i | 0 <= i < |v.items| ensures Within(r, readers, elem, v.items[i], k - 1) {
          WithinGrows(r, readers, elem, v.items[i], j - 1, k - 1);
        }
      case Table(_, elem) =>
        forall key | key in v.entries ensures Within(r, readers, elem, v.entries[key], k - 1) {
          WithinGrows(r, readers, elem, v.entries[key], j - 1, k - 1);
        }
      case Named(name) =>
        if !r.Opaque(name) {
          match r.Lookup(name).value {
            case Alias(target) => WithinGrows(r, readers, target, v, j - 1, k - 1);
            case Enum(_) =>
            case Struct(_, _) =>
              forall key | key in v.entries && r.Meaning(name, key).Some?
                ensures EntryWithin(r, readers, name, r.Meaning(name, key).value, v.entries[key], k - 1)
              {
                var x := r.Meaning(name, key).value;
                assert EntryWithin(r, readers, name, x, v.entries[key], j - 1);
                if !IsNull(r, name, x, v.entries[key]) {
                  WithinGrows(r, readers, r.Fields(name)[x].ty, v.entries[key], j - 1, k - 1);
                }
              }
          }
        }
    }
  }

  // ---------------------------------------------------------------------------------------------

  /**
   * With no BREAKING finding, every accepted configuration stays accepted if what the fingerprint does not record is
   * kept: for every name in use its hand-written code, that it has a recorded shape, the payloads of its variants, the
   * fields that may be null, the spellings of its fields, that it defaults as a whole, and, if it ignores unknown keys,
   * that it does and knows no more of them.
   */
  lemma KeptPreservesAcceptance(b: Release, f: Release, touched: set<Reader>)
    requires Compatible(b.schema, f.schema) && f.Extracted() && Kept(b, f, touched)
    ensures PreservesAcceptance(b, f, touched)
  {
    CompatibleIsExtension(b.schema, f.schema);
    forall before: Readers, after: Readers, t: TypeExpr, v: Value |
      Unchanged(before, after, touched) && b.Mentions(t.Leaf()) && Accepts(b, before, t, v)
      ensures Accepts(f, after, t, v)
    {
      var k :| Within(b, before, t, v, k);
      AcceptanceGrows(b, f, touched, before, after, t, v, k);
    }
  }

  /** And only if, as long as no spelling of one field has become a spelling of another. */
  lemma GreenGatePreservesAcceptance(b: Release, f: Release, touched: set<Reader>)
    requires Compatible(b.schema, f.schema) && f.Extracted() && SpellingsApart(b, f)
    ensures PreservesAcceptance(b, f, touched) <==> Kept(b, f, touched)
  {
    CompatibleIsExtension(b.schema, f.schema);
    if Kept(b, f, touched) {
      KeptPreservesAcceptance(b, f, touched);
    }
    if PreservesAcceptance(b, f, touched) {
      forall name | b.Mentions(name) ensures NameKept(b, f, touched, name) {
        NothingBroken(b, f, touched, name);
      }
    }
  }

  lemma NothingBroken(b: Release, f: Release, touched: set<Reader>, name: string)
    requires Extends(b.schema, f.schema) && f.Extracted() && SpellingsApart(b, f)
    requires PreservesAcceptance(b, f, touched) && b.Mentions(name)
    ensures NameKept(b, f, touched, name)
  {
    if !CodeKept(b, f, touched, name) {
      CodeChangeBreaks(b, f, touched, name);
    } else if !ShapeKept(b, f, name) {
      ShapeChangeBreaks(b, f, touched, name);
    } else if !VariantsKept(b, f, touched, name) {
      VariantChangeBreaks(b, f, touched, name);
    } else if !LeniencyKept(b, f, name) {
      LeniencyChangeBreaks(b, f, touched, name);
    } else if !NullsKept(b, f, name) {
      NullChangeBreaks(b, f, touched, name);
    } else if !DefaultsKept(b, f, name) {
      DefaultChangeBreaks(b, f, touched, name);
    } else if !AliasesKept(b, f, name) {
      AliasChangeBreaks(b, f, touched, name);
    }
  }
}
