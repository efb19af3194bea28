/** Named fields as the leaves of a tree: validation, ordering, and the root. */
module Fields {
  import opened Wrappers
  import opened MerkleHash
  import opened FieldTree
  import opened Lists
  import Sorting

  datatype Error = EmptyFieldName | InvalidFieldName | DuplicateField | NoLeaves | NotCanonical | FieldNotFound

  datatype Canonical = Encoded(bytes: Bytes) | Unencodable

  /** A field with the canonical encoding of its value, if it has one. */
  datatype Field = Field(name: Bytes, value: Canonical)

  datatype Leaf = Leaf(name: Bytes, canonicalJSON: Bytes, hash: Hash)

  /** The encoding check on names, left open. */
  type NameCheck = Bytes -> bool

  /** A name that can be committed: not empty, well encoded, and without the delimiter. */
  predicate ValidName(utf8: NameCheck, name: Bytes) { name != [] && utf8(name) && 0 !in name }

  function ValidateFieldName(utf8: NameCheck, name: Bytes): (r: Result<(), Error>)
    ensures r.Ok? <==> ValidName(utf8, name)
    ensures r == Err(EmptyFieldName) <==> name == []
    ensures r.Err? && name != [] ==> r.error == InvalidFieldName
  {
    if name == [] then Err(EmptyFieldName)
    else if !utf8(name) then Err(InvalidFieldName)
    else if 0 in name then Err(InvalidFieldName)
    else Ok(())
  }

  function LeafHash(name: Bytes, canonical: Bytes): Hash { FieldLeaf(name + [0] + canonical) }

  /** The field can be a leaf. */
  predicate Proper(utf8: NameCheck, field: Field) { ValidName(utf8, field.name) && field.value.Encoded? }

  /** The leaf of a field: its hash is over the name, a zero byte and the encoded value. */
  predicate IsLeafOf(field: Field, leaf: Leaf) {
    && field.value.Encoded? && leaf.name == field.name && leaf.canonicalJSON == field.value.bytes
    && leaf.hash == FieldLeaf(field.name + [0] + field.value.bytes)
  }

  function LeafOf(utf8: NameCheck, field: Field): (r: Result<Leaf, Error>)
    ensures r.Ok? <==> Proper(utf8, field)
    ensures r.Ok? ==> IsLeafOf(field, r.value)
    ensures r == Err(EmptyFieldName) <==> field.name == []
    ensures r == Err(NotCanonical) <==> field.name != [] && field.value.Unencodable?
    ensures r == Err(InvalidFieldName) <==> field.name != [] && field.value.Encoded? && !Proper(utf8, field)
  {
    if field.name == [] then Err(EmptyFieldName)
    else if field.value.Unencodable? then Err(NotCanonical)
    else
      var valid := ValidateFieldName(utf8, field.name);
      if valid.Err? then Err(valid.error)
      else Ok(Leaf(field.name, field.value.bytes, LeafHash(field.name, field.value.bytes)))
  }

  // ---- the order of names

  predicate NameLess(a: Bytes, b: Bytes) {
    if b == [] then false
    else if a == [] then true
    else if a[0] != b[0] then a[0] < b[0]
    else NameLess(a[1..], b[1..])
  }

  /** The first place where a is below b: a byte is smaller, or a ends. */
  ghost predicate LessAt(a: Bytes, b: Bytes, k: nat) {
    k <= |a| && k < |b| && a[..k] == b[..k] && (k == |a| || a[k] < b[k])
  }

  lemma SameFirstByte(a: Bytes, b: Bytes, k: nat)
    requires 0 < k <= |a| && k <= |b| && a[..k] == b[..k]
    ensures a[0] == b[0]
  {
    assert a[..k][0] == b[..k][0];
  }

  /** The order of names is the lexicographic order of their bytes. */
  lemma {:induction false} NameLessMeans(a: Bytes, b: Bytes)
    ensures NameLess(a, b) <==> exists k: nat :: LessAt(a, b, k)
    decreases |a|
  {
    if a == [] || b == [] || a[0] != b[0] {
      if NameLess(a, b) {
        assert LessAt(a, b, 0);
      }
      forall k: nat | LessAt(a, b, k)
        ensures NameLess(a, b)
      {
        if k > 0 {
          SameFirstByte(a, b, k);
        }
      }
    } else {
      NameLessMeans(a[1..], b[1..]);
      if NameLess(a, b) {
        var k: nat :| LessAt(a[1..], b[1..], k);
        assert a[..k + 1] == [a[0]] + a[1..][..k] && b[..k + 1] == [b[0]] + b[1..][..k];
        assert LessAt(a, b, k + 1);
      }
      forall k: nat | LessAt(a, b, k)
        ensures NameLess(a, b)
      {
        assert k > 0;
        assert a[1..][..k - 1] == a[..k][1..] && b[1..][..k - 1] == b[..k][1..];
        assert LessAt(a[1..], b[1..], k - 1);
      }
    }
  }

  lemma ByteOrder(a: bv8, b: bv8, c: bv8)
    ensures a < b ==> !(b < a)
    ensures a != b ==> a < b || b < a
    ensures a < b && b < c ==> a < c
  {
  }

  lemma {:induction false} NameTotal(a: Bytes, b: Bytes)
    ensures !(NameLess(a, b) && NameLess(b, a))
    ensures a == b <==> !NameLess(a, b) && !NameLess(b, a)
    decreases |a|
  {
    if a != [] && b != [] {
      ByteOrder(a[0], b[0], a[0]);
      if a[0] == b[0] {
        NameTotal(a[1..], b[1..]);
        assert a == [a[0]] + a[1..] && b == [b[0]] + b[1..];
      }
    }
  }

  lemma {:induction false} NameTrans(a: Bytes, b: Bytes, c: Bytes)
    requires NameLess(a, b) && NameLess(b, c)
    ensures NameLess(a, c)
    decreases |a|
  {
    if a != [] {
      ByteOrder(a[0], b[0], c[0]);
      if a[0] == b[0] == c[0] {
        NameTrans(a[1..], b[1..], c[1..]);
      }
    }
  }

  // ---- sorting by name

  ghost predicate SortedByName(s: seq<Leaf>) {
    forall i, j :: 0 <= i < j < |s| ==> !NameLess(s[j].name, s[i].name)
  }

  ghost predicate Ascending(s: seq<Leaf>) {
    forall i, j :: 0 <= i < j < |s| ==> NameLess(s[i].name, s[j].name)
  }

  predicate LeafLess(a: Leaf, b: Leaf) { NameLess(a.name, b.name) }

  function ByName(): (Leaf, Leaf) -> bool { (a, b) => LeafLess(a, b) }

  function SortByName(s: seq<Leaf>): seq<Leaf> { Sorting.Sort(ByName(), s) }

  lemma SortSorts(s: seq<Leaf>)
    ensures SortedByName(SortByName(s)) && multiset(SortByName(s)) == multiset(s)
  {
    forall a: Leaf, b: Leaf, c: Leaf
      ensures Sorting.OrderAt(ByName(), a, b, c)
    {
      NameTotal(a.name, b.name);
      NameTotal(b.name, c.name);
      if LeafLess(a, b) && LeafLess(b, c) {
        NameTrans(a.name, b.name, c.name);
      }
    }
    Sorting.SortSorts(ByName(), s);
  }

  lemma AscendingTails(s: seq<Leaf>, t: seq<Leaf>)
    requires Ascending(s) && Ascending(t) && SameLeaves(s, t) && s != []
    ensures t != [] && s[0] == t[0] && SameLeaves(s[1..], t[1..])
  {
    assert s[0] in s;
    assert t[0] in t;
    AscendingFirst(s, t[0]);
    AscendingFirst(t, s[0]);
    NameTotal(s[0].name, t[0].name);
    forall x
      ensures x in s[1..] <==> x in t[1..]
    {
      AscendingRest(s, x);
      AscendingRest(t, x);
    }
  }

  lemma AscendingRest(s: seq<Leaf>, x: Leaf)
    requires Ascending(s) && s != []
    ensures x in s[1..] <==> x in s && x != s[0]
  {
    NameTotal(s[0].name, s[0].name);
    if x in s[1..] {
      var k :| 0 <= k < |s[1..]| && s[1..][k] == x;
      assert NameLess(s[0].name, s[k + 1].name);
    }
  }

  ghost predicate SameLeaves(s: seq<Leaf>, t: seq<Leaf>) {
    forall x :: x in s <==> x in t
  }

  lemma SameEmptiness(s: seq<Leaf>, t: seq<Leaf>)
    requires SameLeaves(s, t)
    ensures t != [] ==> s != []
  {
    if t != [] {
      var x := t[0];
      assert x in t;
      assert x in s;
    }
  }

  /** Ascending lists with the same elements are equal. */
  lemma {:induction false} AscendingUnique(s: seq<Leaf>, t: seq<Leaf>)
    requires Ascending(s) && Ascending(t) && SameLeaves(s, t)
    ensures s == t
    decreases |s|
  {
    SameEmptiness(s, t);
    if s != [] {
      AscendingTails(s, t);
      AscendingUnique(s[1..], t[1..]);
      assert s == [s[0]] + s[1..] && t == [t[0]] + t[1..];
    }
  }

  lemma AscendingFirst(s: seq<Leaf>, y: Leaf)
    requires Ascending(s) && s != [] && y in s
    ensures y == s[0] || NameLess(s[0].name, y.name)
  {
    var k :| 0 <= k < |s| && s[k] == y;
    assert k > 0 ==> NameLess(s[0].name, s[k].name);
  }

  function Names(s: seq<Leaf>): (r: seq<Bytes>)
    ensures |r| == |s|
  {
    seq(|s|, i requires 0 <= i < |s| => s[i].name)
  }

  lemma {:induction false} InsertNames(x: Leaf, s: seq<Leaf>)
    ensures multiset(Names(Sorting.Insert(ByName(), x, s))) == multiset(Names(s)) + multiset{x.name}
  {
    var inserted := Sorting.Insert(ByName(), x, s);
    if s == [] || !LeafLess(s[0], x) {
      assert Names(inserted) == [x.name] + Names(s);
    } else {
      assert Names(inserted) == [s[0].name] + Names(Sorting.Insert(ByName(), x, s[1..]));
      assert Names(s) == [s[0].name] + Names(s[1..]);
      InsertNames(x, s[1..]);
    }
  }

  lemma {:induction false} SortNames(s: seq<Leaf>)
    ensures multiset(Names(SortByName(s))) == multiset(Names(s))
  {
    if s != [] {
      assert Names(s) == [s[0].name] + Names(s[1..]);
      SortNames(s[1..]);
      InsertNames(s[0], SortByName(s[1..]));
    }
  }

  /** In a sorted list without repeated neighbours all names differ. */
  lemma SortedDistinct(s: seq<Leaf>)
    requires SortedByName(s) && forall k :: 0 < k < |s| ==> s[k - 1].name != s[k].name
    ensures Ascending(s) && Distinct(Names(s))
  {
    forall i, j | 0 <= i < j < |s|
      ensures NameLess(s[i].name, s[j].name)
    {
      AscendingBetween(s, i, j);
    }
    forall i, j | 0 <= i < j < |s|
      ensures Names(s)[i] != Names(s)[j]
    {
      NameTotal(s[i].name, s[j].name);
    }
  }

  lemma AscendingBetween(s: seq<Leaf>, i: nat, j: nat)
    requires SortedByName(s) && forall k :: 0 < k < |s| ==> s[k - 1].name != s[k].name
    requires i < j < |s|
    ensures NameLess(s[i].name, s[j].name)
  {
    NameTotal(s[j - 1].name, s[j].name);
    assert s[j - 1].name != s[j].name && !NameLess(s[j].name, s[j - 1].name);
    if i < j - 1 {
      AscendingBetween(s, i, j - 1);
      NameTrans(s[i].name, s[j - 1].name, s[j].name);
    }
  }

  // ---- the leaves of a list of fields

  ghost predicate AllProper(utf8: NameCheck, fields: seq<Field>) {
    forall i :: 0 <= i < |fields| ==> Proper(utf8, fields[i])
  }

  function FieldNames(fields: seq<Field>): (r: seq<Bytes>)
    ensures |r| == |fields|
  {
    seq(|fields|, i requires 0 <= i < |fields| => fields[i].name)
  }

  ghost function LeavesInOrder(utf8: NameCheck, fields: seq<Field>): (r: seq<Leaf>)
    requires AllProper(utf8, fields)
    ensures |r| == |fields|
  {
    seq(|fields|, i requires 0 <= i < |fields| => LeafOf(utf8, fields[i]).value)
  }

  /** The check of neighbours after sorting. */
  method NoneRepeated(sorted: seq<Leaf>) returns (ok: bool)
    requires SortedByName(sorted)
    ensures ok <==> Distinct(Names(sorted))
    ensures ok ==> Ascending(sorted)
  {
    for i := 0 to |sorted|
      invariant forall k :: 0 < k < i ==> sorted[k - 1].name != sorted[k].name
    {
      if i > 0 && sorted[i - 1].name == sorted[i].name {
        assert Names(sorted)[i - 1] == Names(sorted)[i];
        return false;
      }
    }
    SortedDistinct(sorted);
    return true;
  }

  ghost predicate HasLeaf(fields: seq<Field>, leaf: Leaf) {
    exists i :: 0 <= i < |fields| && IsLeafOf(fields[i], leaf)
  }

  lemma LeafIsUnique(utf8: NameCheck, fields: seq<Field>, leaf: Leaf)
    requires AllProper(utf8, fields)
    ensures HasLeaf(fields, leaf) <==>
      exists i :: 0 <= i < |fields| && Proper(utf8, fields[i]) && LeafOf(utf8, fields[i]).value == leaf
  {
    forall i | 0 <= i < |fields|
      ensures Proper(utf8, fields[i]) && (IsLeafOf(fields[i], leaf) <==> LeafOf(utf8, fields[i]).value == leaf)
    {
    }
  }

  /** The first field that cannot be a leaf, and why. */
  ghost predicate FirstImproper(utf8: NameCheck, fields: seq<Field>, i: int, error: Error) {
    && 0 <= i < |fields| && (forall j :: 0 <= j < i ==> Proper(utf8, fields[j]))
    && LeafOf(utf8, fields[i]) == Err(error)
  }

  /** The sorted leaves, unless a field is improper or a name is repeated. */
  method Leaves(utf8: NameCheck, fields: seq<Field>) returns (r: Result<seq<Leaf>, Error>)
    ensures r.Ok? <==> AllProper(utf8, fields) && Distinct(FieldNames(fields))
    ensures r.Ok? ==> Ascending(r.value) && r.value == SortByName(LeavesInOrder(utf8, fields))
    ensures r.Err? ==> (r.error == DuplicateField <==> AllProper(utf8, fields))
    ensures r.Ok? ==> forall leaf :: leaf in r.value <==> HasLeaf(fields, leaf)
    ensures r.Err? && !AllProper(utf8, fields) ==> exists i :: FirstImproper(utf8, fields, i, r.error)
  {
    var leaves := [];
    for i := 0 to |fields|
      invariant |leaves| == i
      invariant forall k :: 0 <= k < i ==> Proper(utf8, fields[k]) && leaves[k] == LeafOf(utf8, fields[k]).value
    {
      var leaf := LeafOf(utf8, fields[i]);
      if leaf.Err? {
        assert FirstImproper(utf8, fields, i, leaf.error);
        return Err(leaf.error);
      }
      leaves := leaves + [leaf.value];
    }
    assert leaves == LeavesInOrder(utf8, fields) && Names(leaves) == FieldNames(fields);
    var sorted := SortByName(leaves);
    SortSorts(leaves);
    SortNames(leaves);
    var distinct := NoneRepeated(sorted);
    SameDistinct(Names(leaves), Names(sorted));
    forall leaf
      ensures leaf in sorted <==> HasLeaf(fields, leaf)
    {
      SortedMembers(utf8, fields, leaf);
      LeafIsUnique(utf8, fields, leaf);
    }
    return if distinct then Ok(sorted) else Err(DuplicateField);
  }

  lemma SameDistinct(a: seq<Bytes>, b: seq<Bytes>)
    requires multiset(a) == multiset(b)
    ensures Distinct(a) <==> Distinct(b)
  {
    if Distinct(a) {
      DistinctPermuted(a, b);
    }
    if Distinct(b) {
      DistinctPermuted(b, a);
    }
  }

  // ---- the root and the paths of a list of fields

  function Hashes(leaves: seq<Leaf>): (r: seq<Hash>)
    ensures |r| == |leaves|
  {
    seq(|leaves|, i requires 0 <= i < |leaves| => leaves[i].hash)
  }

  /** The root of a list of proper fields. */
  ghost function RootOf(utf8: NameCheck, fields: seq<Field>): Hash
    requires AllProper(utf8, fields)
  {
    MerkleRoot(Hashes(SortByName(LeavesInOrder(utf8, fields))))
  }

  ghost predicate Committable(utf8: NameCheck, fields: seq<Field>) {
    AllProper(utf8, fields) && Distinct(FieldNames(fields))
  }

  /** However the leaves are sorted: the root is the tree hash over the leaves of
      the fields in ascending order of their names. */
  lemma RootOverAscending(utf8: NameCheck, fields: seq<Field>, leaves: seq<Leaf>)
    requires Committable(utf8, fields) && Ascending(leaves)
    requires forall leaf :: leaf in leaves <==> HasLeaf(fields, leaf)
    ensures RootOf(utf8, fields) == MerkleRoot(Hashes(leaves))
  {
    var sorted := SortByName(LeavesInOrder(utf8, fields));
    CommittableAscends(utf8, fields);
    forall leaf
      ensures leaf in sorted <==> leaf in leaves
    {
      SortedMembers(utf8, fields, leaf);
      LeafIsUnique(utf8, fields, leaf);
    }
    AscendingUnique(sorted, leaves);
  }

  method Root(utf8: NameCheck, fields: seq<Field>) returns (r: Result<Hash, Error>)
    ensures r.Ok? <==> Committable(utf8, fields) && fields != []
    ensures r.Ok? ==> r.value == RootOf(utf8, fields)
    ensures fields == [] ==> r == Err(NoLeaves)
  {
    var leaves := Leaves(utf8, fields);
    if leaves.Err? {
      return Err(leaves.error);
    }
    SortSorts(LeavesInOrder(utf8, fields));
    SameLength(leaves.value, LeavesInOrder(utf8, fields));
    if |leaves.value| == 0 {
      return Err(NoLeaves);
    }
    return Ok(MerkleRoot(Hashes(leaves.value)));
  }

  lemma SameLength(a: seq<Leaf>, b: seq<Leaf>)
    requires multiset(a) == multiset(b)
    ensures |a| == |b| && SameLeaves(a, b)
  {
    assert |a| == |multiset(a)| == |multiset(b)| == |b|;
    forall x
      ensures x in a <==> x in b
    {
      assert x in multiset(a) <==> x in multiset(b);
    }
  }

  lemma SortedMembers(utf8: NameCheck, fields: seq<Field>, leaf: Leaf)
    requires AllProper(utf8, fields)
    ensures leaf in SortByName(LeavesInOrder(utf8, fields)) <==>
      exists i :: 0 <= i < |fields| && Proper(utf8, fields[i]) && LeafOf(utf8, fields[i]).value == leaf
  {
    var leaves := LeavesInOrder(utf8, fields);
    SortSorts(leaves);
    SameLength(SortByName(leaves), leaves);
    if leaf in leaves {
      var i :| 0 <= i < |leaves| && leaves[i] == leaf;
      assert Proper(utf8, fields[i]);
    }
    if exists i :: 0 <= i < |fields| && Proper(utf8, fields[i]) && LeafOf(utf8, fields[i]).value == leaf {
      var i :| 0 <= i < |fields| && Proper(utf8, fields[i]) && LeafOf(utf8, fields[i]).value == leaf;
      assert leaves[i] == leaf;
    }
  }

  lemma CommittableAscends(utf8: NameCheck, fields: seq<Field>)
    requires Committable(utf8, fields)
    ensures Ascending(SortByName(LeavesInOrder(utf8, fields)))
  {
    var leaves := LeavesInOrder(utf8, fields);
    var sorted := SortByName(leaves);
    SortSorts(leaves);
    SortNames(leaves);
    assert Names(leaves) == FieldNames(fields);
    DistinctPermuted(Names(leaves), Names(sorted));
    forall k | 0 < k < |sorted|
      ensures sorted[k - 1].name != sorted[k].name
    {
      assert Names(sorted)[k - 1] != Names(sorted)[k];
    }
    SortedDistinct(sorted);
  }

  /** The root does not depend on the order in which the fields are given. */
  lemma RootOrderFree(utf8: NameCheck, fields: seq<Field>, fields': seq<Field>)
    requires Committable(utf8, fields) && Committable(utf8, fields')
    requires forall f :: f in fields <==> f in fields'
    ensures RootOf(utf8, fields) == RootOf(utf8, fields')
  {
    var s, t := SortByName(LeavesInOrder(utf8, fields)), SortByName(LeavesInOrder(utf8, fields'));
    CommittableAscends(utf8, fields);
    CommittableAscends(utf8, fields');
    forall x
      ensures x in s <==> x in t
    {
      SortedMembers(utf8, fields, x);
      SortedMembers(utf8, fields', x);
      SameFields(utf8, fields, fields', x);
      SameFields(utf8, fields', fields, x);
    }
    AscendingUnique(s, t);
  }

  lemma SameFields(utf8: NameCheck, fields: seq<Field>, fields': seq<Field>, x: Leaf)
    requires forall f :: f in fields ==> f in fields'
    ensures (exists i :: 0 <= i < |fields| && Proper(utf8, fields[i]) && LeafOf(utf8, fields[i]).value == x) ==>
      exists i :: 0 <= i < |fields'| && Proper(utf8, fields'[i]) && LeafOf(utf8, fields'[i]).value == x
  {
    if exists i :: 0 <= i < |fields| && Proper(utf8, fields[i]) && LeafOf(utf8, fields[i]).value == x {
      var i :| 0 <= i < |fields| && Proper(utf8, fields[i]) && LeafOf(utf8, fields[i]).value == x;
      assert fields[i] in fields';
      var j :| 0 <= j < |fields'| && fields'[j] == fields[i];
    }
  }

  /** The sibling path of a field, and the root. */
  method LeafPath(utf8: NameCheck, fields: seq<Field>, fieldName: Bytes)
      returns (r: Result<(seq<ProofStep>, Hash), Error>)
    ensures r.Ok? <==> Committable(utf8, fields) && fieldName in FieldNames(fields)
    ensures Committable(utf8, fields) && r.Err? ==> r.error == FieldNotFound
    ensures r.Ok? ==> r.value.1 == RootOf(utf8, fields) && WellFormed(r.value.0)
    ensures r.Ok? ==> forall i :: 0 <= i < |fields| && fields[i].name == fieldName ==>
      fields[i].value.Encoded? && Climb(LeafHash(fieldName, fields[i].value.bytes), r.value.0) == r.value.1
  {
    var leaves := Leaves(utf8, fields);
    if leaves.Err? {
      return Err(leaves.error);
    }
    var ls := leaves.value;
    var idx := -1;
    for i := 0 to |ls|
      invariant idx == -1 && forall k :: 0 <= k < i ==> ls[k].name != fieldName
    {
      if ls[i].name == fieldName {
        idx := i;
        break;
      }
    }
    NameFound(utf8, fields, fieldName);
    if idx < 0 {
      return Err(FieldNotFound);
    }
    var hashes := Hashes(ls);
    var (root, path) := MerkleRootAndPath(hashes, idx);
    PathVerifies(hashes, idx);
    forall i | 0 <= i < |fields| && fields[i].name == fieldName
      ensures fields[i].value.Encoded? && LeafHash(fieldName, fields[i].value.bytes) == hashes[idx]
    {
      SameName(utf8, fields, ls, i, idx);
    }
    return Ok((path, root));
  }

  lemma NameFound(utf8: NameCheck, fields: seq<Field>, name: Bytes)
    requires Committable(utf8, fields)
    ensures var ls := SortByName(LeavesInOrder(utf8, fields));
      name in FieldNames(fields) <==> exists k :: 0 <= k < |ls| && ls[k].name == name
  {
    var leaves := LeavesInOrder(utf8, fields);
    var ls := SortByName(leaves);
    SortNames(leaves);
    assert Names(leaves) == FieldNames(fields);
    assert name in multiset(Names(leaves)) <==> name in multiset(Names(ls));
    if name in Names(ls) {
      var k :| 0 <= k < |ls| && Names(ls)[k] == name;
    }
    if exists k :: 0 <= k < |ls| && ls[k].name == name {
      var k :| 0 <= k < |ls| && ls[k].name == name;
      assert Names(ls)[k] == name;
    }
  }

  lemma SameName(utf8: NameCheck, fields: seq<Field>, ls: seq<Leaf>, i: nat, idx: nat)
    requires Committable(utf8, fields) && ls == SortByName(LeavesInOrder(utf8, fields))
    requires i < |fields| && idx < |ls| && ls[idx].name == fields[i].name
    ensures Proper(utf8, fields[i]) && LeafOf(utf8, fields[i]).value == ls[idx]
  {
    var x := LeafOf(utf8, fields[i]).value;
    assert Proper(utf8, fields[i]);
    SortedMembers(utf8, fields, x);
    CommittableAscends(utf8, fields);
    var k :| 0 <= k < |ls| && ls[k] == x;
    NamesApart(ls, k, idx);
  }

  lemma NamesApart(ls: seq<Leaf>, k: nat, idx: nat)
    requires Ascending(ls) && k < |ls| && idx < |ls|
    ensures ls[k].name == ls[idx].name ==> k == idx
  {
    NameTotal(ls[k].name, ls[idx].name);
    if k < idx {
      assert NameLess(ls[k].name, ls[idx].name);
    } else if idx < k {
      assert NameLess(ls[idx].name, ls[k].name);
    }
  }

  // ---- what an accepted path shows

  lemma NulAt(name: Bytes, value: Bytes)
    ensures (name + [0] + value)[|name|] == 0
  {
  }

  lemma NameAt(name: Bytes, value: Bytes, k: nat)
    requires 0 !in name && k < |name|
    ensures (name + [0] + value)[k] != 0
  {
    assert (name + [0] + value)[k] == name[k];
    assert name[k] in name;
  }

  lemma NotShorter(name: Bytes, value: Bytes, name': Bytes, value': Bytes)
    requires 0 !in name' && name + [0] + value == name' + [0] + value'
    ensures |name| >= |name'|
  {
    NulAt(name, value);
    forall k | 0 <= k < |name'|
      ensures (name' + [0] + value')[k] != 0
    {
      NameAt(name', value', k);
    }
  }

  /** A leaf binds its name and its value: the delimiter cannot occur in a name. */
  lemma LeafBinds(name: Bytes, value: Bytes, name': Bytes, value': Bytes)
    requires 0 !in name && 0 !in name' && name + [0] + value == name' + [0] + value'
    ensures name == name' && value == value'
  {
    var p, q := name + [0] + value, name' + [0] + value';
    NotShorter(name, value, name', value');
    NotShorter(name', value', name, value);
    assert name == p[..|name|] == q[..|name|] == name';
    assert value == p[|name| + 1..] == q[|name| + 1..] == value';
  }

  /** A path accepted for a name and a value against the root of some fields
      shows that the fields contain that name with that value. */
  lemma AcceptedFieldIsCommitted(utf8: NameCheck, fields: seq<Field>, name: Bytes, value: Bytes, path: seq<ProofStep>)
    requires AllProper(utf8, fields) && fields != [] && 0 !in name
    requires WellFormed(path) && Climb(LeafHash(name, value), path) == RootOf(utf8, fields)
    ensures Field(name, Encoded(value)) in fields
  {
    var leaves := LeavesInOrder(utf8, fields);
    var ls := SortByName(leaves);
    SortSorts(leaves);
    SameLength(ls, leaves);
    forall h | h in Hashes(ls)
      ensures h.FieldLeaf?
    {
      var k :| 0 <= k < |ls| && Hashes(ls)[k] == h;
      SortedMembers(utf8, fields, ls[k]);
    }
    AcceptedLeafIsInTree(Hashes(ls), LeafHash(name, value), path);
    var k :| 0 <= k < |ls| && Hashes(ls)[k] == LeafHash(name, value);
    SortedMembers(utf8, fields, ls[k]);
    var i :| 0 <= i < |fields| && Proper(utf8, fields[i]) && LeafOf(utf8, fields[i]).value == ls[k];
    LeafBinds(name, value, fields[i].name, fields[i].value.bytes);
  }
}
