/** Where the fields of an object are on the heap. */
module Fields {
  import opened Words

  /** A field of a class file: name, descriptor and access flags. */
  datatype Field = Field(name: string, descriptor: string, isFinal: bool, isStatic: bool)

  /** A class file: its fields, and the class it extends unless it is java/lang/Object. */
  datatype ClassFile = ClassFile(fields: seq<Field>, hasSuper: bool, superClass: nat)

  /** Fields that have a place in the object: neither static nor constants of a primitive type. */
  predicate IsNormal(f: Field) {
    !f.isStatic && !(f.isFinal && (f.descriptor == "" || f.descriptor[0] != 'L'))
  }

  predicate Matches(f: Field, name: string, descriptor: string) {
    f.name == name && f.descriptor == descriptor
  }

  function NormalFields(fields: seq<Field>): seq<Field> {
    if fields == [] then []
    else
      var n := |fields| - 1;
      NormalFields(fields[..n]) + if IsNormal(fields[n]) then [fields[n]] else []
  }

  /** The classes from c up to java/lang/Object: the chain of superclasses ends. */
  ghost predicate IsChain(classes: seq<ClassFile>, chain: seq<nat>) {
    && chain != []
    && (forall i :: 0 <= i < |chain| ==> chain[i] < |classes|)
    && (forall i :: 0 <= i < |chain| ==> classes[chain[i]].hasSuper == (i + 1 < |chain|))
    && (forall i :: 0 <= i < |chain| - 1 ==> classes[chain[i]].superClass == chain[i + 1])
  }

  /** The fields of an object in the order of their places: its own class first. */
  function Layout(classes: seq<ClassFile>, chain: seq<nat>): seq<Field>
    requires forall i :: 0 <= i < |chain| ==> chain[i] < |classes|
  {
    if chain == [] then []
    else
      var n := |chain| - 1;
      Layout(classes, chain[..n]) + NormalFields(classes[chain[n]].fields)
  }

  class Loader {
    var classes: seq<ClassFile>
    var cN: nat
    var fN: u1

    constructor (classes: seq<ClassFile>)
      ensures this.classes == classes && cN == 0 && fN == 0
    {
      this.classes := classes;
      cN, fN := 0, 0;
    }

    /** findSuperClass: 0 at java/lang/Object, which stays the current class. */
    method FindSuperClass() returns (found: bool)
      requires cN < |classes|
      modifies this`cN
      ensures found == classes[old(cN)].hasSuper
      ensures cN == if found then classes[old(cN)].superClass else old(cN)
    {
      found := classes[cN].hasSuper;
      if found {
        cN := classes[cN].superClass;
      }
    }

    /** The inner loop of findFieldByName: the normal fields of the current class in front of the one that matches are
        added to fN. */
    method SearchFields(name: string, descriptor: string, ghost before: seq<Field>) returns (found: bool)
      requires cN < |classes| && |classes[cN].fields| < 0x100
      requires fN == |before| && |before| + |NormalFields(classes[cN].fields)| < 0x100
      requires NoMatch(before, name, descriptor)
      modifies this`fN
      ensures var layout := before + NormalFields(classes[cN].fields);
        if found then Resolves(layout, name, descriptor, fN)
        else fN == |layout| && NoMatch(layout, name, descriptor)
    {
      found := false;
      var fields := classes[cN].fields;
      var numFields: u1 := Wrap8(|fields|);
      assert before + NormalFields(fields[..0]) == before;
      hide IsNormal;
      hide Matches;
      var i := 0;
      while i < numFields
        invariant 0 <= i <= numFields && fN == |before + NormalFields(fields[..i])|
        invariant NoMatch(before + NormalFields(fields[..i]), name, descriptor)
      {
        NormalStep(fields, i, before);
        if IsNormal(fields[i]) {
          if Matches(fields[i], name, descriptor) {
            found := true;
            return;
          }
          NoMatchStep(before + NormalFields(fields[..i]), fields[i], name, descriptor);
          fN := Wrap8(fN as int + 1);
        }
        i := i + 1;
      }
      assert fields[..i] == fields;
    }

    /** findFieldByName, for an object of class cN: fN is the first place in the object whose field has this name and
        descriptor. */
    method FindFieldByName(name: string, descriptor: string, ghost chain: seq<nat>) returns (found: bool)
      requires IsChain(classes, chain) && cN == chain[0] && |Layout(classes, chain)| < 0x100
      requires forall c :: 0 <= c < |classes| ==> |classes[c].fields| < 0x100
      modifies this`cN, this`fN
      ensures found <==> exists k, f ::
        && 0 <= k < |chain| && f in classes[chain[k]].fields && f.name == name && f.descriptor == descriptor
        && !f.isStatic && (f.isFinal ==> f.descriptor != "" && f.descriptor[0] == 'L')
      ensures found ==> fN < |Layout(classes, chain)| && Resolves(Layout(classes, chain), name, descriptor, fN)
    {
      hide Layout;
      hide NormalFields;
      hide Matches;
      hide NoMatch;
      hide Resolves;
      fN := 0;
      found := false;
      LayoutHas(classes, chain, name, descriptor);
      NothingMatches(name, descriptor);
      ghost var j := 0;
      LayoutStep(classes, chain, 0);
      var more := true;
      while more
        invariant 0 <= j < |chain| && cN == chain[j]
        invariant !found && fN == |Layout(classes, chain[..j + if more then 0 else 1])|
        invariant NoMatch(Layout(classes, chain[..j + if more then 0 else 1]), name, descriptor)
        invariant !more ==> j + 1 == |chain|
        decreases more, |chain| - j
      {
        LayoutStep(classes, chain, j);
        found := SearchFields(name, descriptor, Layout(classes, chain[..j]));
        if found {
          ResolvesInLonger(Layout(classes, chain[..j + 1]), Layout(classes, chain), name, descriptor, fN);
          return;
        }
        more := FindSuperClass();
        if more {
          j := j + 1;
        }
      }
      assert chain[..j + 1] == chain;
      NoMatchMeans(Layout(classes, chain), name, descriptor);
    }

    method CountOwnFields(ghost before: seq<Field>)
      requires cN < |classes| && fN == |before| && |before| + |NormalFields(classes[cN].fields)| < 0x100
      modifies this`fN
      ensures fN == |before + NormalFields(classes[cN].fields)|
    {
      hide IsNormal;
      var fields := classes[cN].fields;
      assert before + NormalFields(fields[..0]) == before;
      var i := 0;
      while i < |fields|
        invariant 0 <= i <= |fields| && fN == |before + NormalFields(fields[..i])|
      {
        NormalStep(fields, i, before);
        if IsNormal(fields[i]) {
          fN := Wrap8(fN as int + 1);
        }
        i := i + 1;
      }
      assert fields[..i] == fields;
    }

    /** The count that NEW makes before it asks the heap for this many slots and one more. */
    method CountFields(ghost chain: seq<nat>)
      requires IsChain(classes, chain) && cN == chain[0] && |Layout(classes, chain)| < 0x100
      modifies this`cN, this`fN
      ensures fN == |Layout(classes, chain)|
    {
      hide Layout;
      hide NormalFields;
      fN := 0;
      ghost var j := 0;
      LayoutStep(classes, chain, 0);
      var more := true;
      while more
        invariant 0 <= j < |chain| && cN == chain[j]
        invariant fN == |Layout(classes, chain[..j + if more then 0 else 1])|
        invariant !more ==> j + 1 == |chain|
        decreases more, |chain| - j
      {
        LayoutStep(classes, chain, j);
        CountOwnFields(Layout(classes, chain[..j]));
        more := FindSuperClass();
        if more {
          j := j + 1;
        }
      }
      assert chain[..j + 1] == chain;
    }
  }

  ghost predicate NoMatch(layout: seq<Field>, name: string, descriptor: string) {
    forall i :: 0 <= i < |layout| ==> !Matches(layout[i], name, descriptor)
  }

  lemma NothingMatches(name: string, descriptor: string)
    ensures NoMatch([], name, descriptor)
  {
  }

  lemma NoMatchMeans(layout: seq<Field>, name: string, descriptor: string)
    ensures NoMatch(layout, name, descriptor) <==> !exists f :: f in layout && Matches(f, name, descriptor)
  {
  }

  lemma ResolvesInLonger(layout: seq<Field>, longer: seq<Field>, name: string, descriptor: string, place: nat)
    requires layout <= longer && Resolves(layout, name, descriptor, place)
    ensures Resolves(longer, name, descriptor, place) && Matches(longer[place], name, descriptor)
    ensures longer[place] in longer
  {
  }

  lemma NoMatchStep(layout: seq<Field>, f: Field, name: string, descriptor: string)
    requires NoMatch(layout, name, descriptor) && !Matches(f, name, descriptor)
    ensures NoMatch(layout + [f], name, descriptor)
  {
  }

  lemma NormalStep(fields: seq<Field>, i: nat, before: seq<Field>)
    requires i < |fields|
    ensures before + NormalFields(fields[..i + 1]) ==
      before + NormalFields(fields[..i]) + if IsNormal(fields[i]) then [fields[i]] else []
    ensures before + NormalFields(fields[..i + 1]) <= before + NormalFields(fields)
  {
    hide IsNormal;
    hide NormalFields;
    NormalOneMore(fields, i);
    NormalPrefix(fields, i + 1);
    AddInFront(before, NormalFields(fields[..i]), if IsNormal(fields[i]) then [fields[i]] else [],
               NormalFields(fields));
  }

  lemma AddInFront(before: seq<Field>, a: seq<Field>, b: seq<Field>, c: seq<Field>)
    requires a + b <= c
    ensures before + (a + b) == before + a + b && before + (a + b) <= before + c
  {
  }

  lemma NormalOneMore(fields: seq<Field>, i: nat)
    requires i < |fields|
    ensures NormalFields(fields[..i + 1]) == NormalFields(fields[..i]) + if IsNormal(fields[i]) then [fields[i]] else []
  {
    hide IsNormal;
    assert fields[..i + 1][..i] == fields[..i];
  }

  lemma {:induction false} NormalPrefix(fields: seq<Field>, i: nat)
    requires i <= |fields|
    ensures NormalFields(fields[..i]) <= NormalFields(fields)
    decreases |fields|
  {
    if i < |fields| {
      var n := |fields| - 1;
      assert fields[..n][..i] == fields[..i];
      NormalPrefix(fields[..n], i);
    } else {
      assert fields[..i] == fields;
    }
  }

  lemma {:induction false} LayoutPrefix(classes: seq<ClassFile>, chain: seq<nat>, j: nat)
    requires j <= |chain| && forall i :: 0 <= i < |chain| ==> chain[i] < |classes|
    ensures Layout(classes, chain[..j]) <= Layout(classes, chain)
    decreases |chain|
  {
    if j < |chain| {
      var n := |chain| - 1;
      assert chain[..n][..j] == chain[..j];
      LayoutPrefix(classes, chain[..n], j);
    } else {
      assert chain[..j] == chain;
    }
  }

  lemma LayoutStep(classes: seq<ClassFile>, chain: seq<nat>, j: nat)
    requires j < |chain| && forall i :: 0 <= i < |chain| ==> chain[i] < |classes|
    ensures Layout(classes, chain[..0]) == []
    ensures Layout(classes, chain[..j + 1]) == Layout(classes, chain[..j]) + NormalFields(classes[chain[j]].fields)
    ensures Layout(classes, chain[..j + 1]) <= Layout(classes, chain)
  {
    assert chain[..j + 1][..j] == chain[..j];
    LayoutPrefix(classes, chain, j + 1);
  }

  /** The place that an access to name and descriptor uses. */
  ghost predicate Resolves(layout: seq<Field>, name: string, descriptor: string, place: nat) {
    && place < |layout| && Matches(layout[place], name, descriptor)
    && forall i :: 0 <= i < place ==> !Matches(layout[i], name, descriptor)
  }

  /** Accesses use the same place exactly when they name the same field, and every place is inside the object that
      NEW has allocated: |layout| slots behind its first one. */
  lemma PlacesAreDistinct(layout: seq<Field>, name: string, descriptor: string, name2: string, descriptor2: string,
                          place: nat, place2: nat)
    requires Resolves(layout, name, descriptor, place) && Resolves(layout, name2, descriptor2, place2)
    ensures place == place2 <==> name == name2 && descriptor == descriptor2
    ensures 1 <= place + 1 < |layout| + 1
  {
  }

  // Own places

  /** No class file declares the same field twice. */
  ghost predicate DeclaredOnce(c: ClassFile) {
    forall i, k :: 0 <= i < k < |c.fields| ==>
      !(c.fields[i].name == c.fields[k].name && c.fields[i].descriptor == c.fields[k].descriptor)
  }

  /** One of the classes in front of chain[j] declares a normal field with this name and descriptor. */
  ghost predicate DeclaredInSubclass(classes: seq<ClassFile>, chain: seq<nat>, j: nat, name: string, descriptor: string)
    requires j <= |chain| && forall i :: 0 <= i < |chain| ==> chain[i] < |classes|
  {
    exists k, f :: 0 <= k < j && f in classes[chain[k]].fields && IsNormal(f) && Matches(f, name, descriptor)
  }

  /** The place that is kept for field i of class chain[j]: behind those of its subclasses, in the order of its class
      file. */
  function OwnPlace(classes: seq<ClassFile>, chain: seq<nat>, j: nat, i: nat): nat
    requires j < |chain| && (forall k :: 0 <= k < |chain| ==> chain[k] < |classes|) && i < |classes[chain[j]].fields|
  {
    |Layout(classes, chain[..j])| + |NormalFields(classes[chain[j]].fields[..i])|
  }

  lemma {:induction false} NormalMembers(fields: seq<Field>, f: Field)
    ensures f in NormalFields(fields) <==> f in fields && IsNormal(f)
    decreases |fields|
  {
    hide IsNormal;
    if fields != [] {
      var n := |fields| - 1;
      NormalMembers(fields[..n], f);
      assert fields == fields[..n] + [fields[n]];
    }
  }

  lemma {:induction false} LayoutMembers(classes: seq<ClassFile>, chain: seq<nat>, f: Field)
    requires forall i :: 0 <= i < |chain| ==> chain[i] < |classes|
    ensures f in Layout(classes, chain) <==>
      exists k :: 0 <= k < |chain| && f in classes[chain[k]].fields && IsNormal(f)
    decreases |chain|
  {
    hide IsNormal;
    if chain != [] {
      var n := |chain| - 1;
      LayoutMembers(classes, chain[..n], f);
      NormalMembers(classes[chain[n]].fields, f);
    }
  }

  /** The layout has a field of this name and descriptor iff some class of the chain declares one that is neither static
      nor a constant of a primitive type. */
  lemma LayoutHas(classes: seq<ClassFile>, chain: seq<nat>, name: string, descriptor: string)
    requires forall i :: 0 <= i < |chain| ==> chain[i] < |classes|
    ensures (exists f :: f in Layout(classes, chain) && Matches(f, name, descriptor)) <==> exists k, f ::
      && 0 <= k < |chain| && f in classes[chain[k]].fields && f.name == name && f.descriptor == descriptor
      && !f.isStatic && (f.isFinal ==> f.descriptor != "" && f.descriptor[0] == 'L')
  {
    hide Layout;
    if f :| f in Layout(classes, chain) && Matches(f, name, descriptor) {
      LayoutMembers(classes, chain, f);
      var k :| 0 <= k < |chain| && f in classes[chain[k]].fields && IsNormal(f);
      assert f in classes[chain[k]].fields;
    }
    if k, f :|
      && 0 <= k < |chain| && f in classes[chain[k]].fields && f.name == name && f.descriptor == descriptor
      && !f.isStatic && (f.isFinal ==> f.descriptor != "" && f.descriptor[0] == 'L') {
      LayoutMembers(classes, chain, f);
      assert IsNormal(f);
    }
  }

  lemma OwnPlaceIsInLayout(classes: seq<ClassFile>, chain: seq<nat>, j: nat, i: nat)
    requires j < |chain| && (forall k :: 0 <= k < |chain| ==> chain[k] < |classes|) && i < |classes[chain[j]].fields|
    requires IsNormal(classes[chain[j]].fields[i])
    ensures Layout(classes, chain[..j]) + NormalFields(classes[chain[j]].fields[..i]) + [classes[chain[j]].fields[i]] <=
      Layout(classes, chain)
  {
    hide IsNormal;
    hide Layout;
    hide NormalFields;
    LayoutStep(classes, chain, j);
    NormalStep(classes[chain[j]].fields, i, Layout(classes, chain[..j]));
  }

  lemma FrontHasNoMatch(classes: seq<ClassFile>, chain: seq<nat>, j: nat, i: nat)
    requires j < |chain| && (forall k :: 0 <= k < |chain| ==> chain[k] < |classes|) && i < |classes[chain[j]].fields|
    requires DeclaredOnce(classes[chain[j]])
    ensures var f := classes[chain[j]].fields[i];
      NoMatch(Layout(classes, chain[..j]) + NormalFields(classes[chain[j]].fields[..i]), f.name, f.descriptor) <==>
      !DeclaredInSubclass(classes, chain, j, f.name, f.descriptor)
  {
    hide IsNormal;
    hide Layout;
    hide NormalFields;
    var fields := classes[chain[j]].fields;
    var f := fields[i];
    var subs, own := Layout(classes, chain[..j]), NormalFields(fields[..i]);
    forall g ensures g in own ==> !Matches(g, f.name, f.descriptor) {
      NormalMembers(fields[..i], g);
      if g in own {
        var k :| 0 <= k < i && fields[..i][k] == g;
        assert fields[k] == g;
      }
    }
    forall g ensures g in subs <==> exists k :: 0 <= k < j && g in classes[chain[k]].fields && IsNormal(g) {
      LayoutMembers(classes, chain[..j], g);
      if exists k :: 0 <= k < j && g in classes[chain[k]].fields && IsNormal(g) {
        var k :| 0 <= k < j && g in classes[chain[k]].fields && IsNormal(g);
        assert chain[..j][k] == chain[k];
      }
    }
    NoMatchMeans(subs + own, f.name, f.descriptor);
    hide Matches;
  }

  /** An access to field i of class chain[j], in an object of class chain[0], uses the place that is kept for the field
      exactly when no subclass in between declares a normal field with the same name and descriptor. */
  lemma OwnPlaceIff(classes: seq<ClassFile>, chain: seq<nat>, j: nat, i: nat, place: nat)
    requires IsChain(classes, chain) && j < |chain| && i < |classes[chain[j]].fields|
    requires DeclaredOnce(classes[chain[j]]) && IsNormal(classes[chain[j]].fields[i])
    requires var f := classes[chain[j]].fields[i]; Resolves(Layout(classes, chain), f.name, f.descriptor, place)
    ensures var f := classes[chain[j]].fields[i];
      place == OwnPlace(classes, chain, j, i) <==> !DeclaredInSubclass(classes, chain, j, f.name, f.descriptor)
  {
    hide Layout;
    hide NormalFields;
    hide IsNormal;
    hide DeclaredInSubclass;
    var f := classes[chain[j]].fields[i];
    var front := Layout(classes, chain[..j]) + NormalFields(classes[chain[j]].fields[..i]);
    var layout := Layout(classes, chain);
    OwnPlaceIsInLayout(classes, chain, j, i);
    FrontHasNoMatch(classes, chain, j, i);
    assert layout[|front|] == f;
    assert forall k :: 0 <= k < |front| ==> layout[k] == front[k];
    hide Matches;
    hide DeclaredOnce;
    hide IsChain;
  }

  lemma OneField(f: Field)
    requires IsNormal(f)
    ensures NormalFields([]) == [] && NormalFields([f]) == [f] && NormalFields([f][..0]) == []
  {
    assert [f][..0] == [];
  }

  /** The layout of a chain of three classes, the first two of which declare one field each and the last one none. */
  lemma LayoutOfThree(classes: seq<ClassFile>, chain: seq<nat>, f: Field, g: Field)
    requires |chain| == 3 && (forall i :: 0 <= i < |chain| ==> chain[i] < |classes|) && IsNormal(f) && IsNormal(g)
    requires classes[chain[0]].fields == [f] && classes[chain[1]].fields == [g] && classes[chain[2]].fields == []
    ensures |Layout(classes, chain[..1])| == 1 && Layout(classes, chain) == [f, g]
  {
    hide Layout;
    hide NormalFields;
    hide IsNormal;
    LayoutStep(classes, chain, 0);
    LayoutStep(classes, chain, 1);
    LayoutStep(classes, chain, 2);
    OneField(f);
    OneField(g);
    assert chain[..3] == chain;
  }

  /** A field of a superclass that a subclass has taken over: Sub and Base both declare "int x"; the accesses of
      Base's own methods to an object of class Sub use the place of Sub's field, and the place kept for Base's is
      never used. */
  lemma SubclassTakesOver() returns (classes: seq<ClassFile>, chain: seq<nat>)
    ensures IsChain(classes, chain) && |chain| == 3 && (forall c :: c in classes ==> DeclaredOnce(c))
    ensures |classes[chain[1]].fields| == 1 && IsNormal(classes[chain[1]].fields[0])
    ensures OwnPlace(classes, chain, 1, 0) == 1 && Resolves(Layout(classes, chain), "x", "I", 0)
    ensures Matches(classes[chain[1]].fields[0], "x", "I")
    ensures forall name, descriptor :: !Resolves(Layout(classes, chain), name, descriptor, 1)
  {
    hide Layout;
    hide NormalFields;
    var x := Field("x", "I", false, false);
    classes := [ClassFile([], false, 0), ClassFile([x], true, 0), ClassFile([x], true, 1)];
    chain := [2, 1, 0];
    LayoutOfThree(classes, chain, x, x);
    OneField(x);
  }
}
