/** The data shared by every part of the model: objects, index postings, and the
    pair of structures a collection keeps in step (its object store and its indexes).
 */
module Model {

  /** A Java `int`. */
  type Int32 = x: int | -0x8000_0000 <= x <= 0x7fff_ffff

  /** One value of one attribute, as an index files objects under it. */
  datatype Key = Key(attribute: nat, value: int)

  /** An application object. Equality is identity; the hash code and the attribute values
      are functions of the object, so they are fields of it. */
  datatype Obj = Obj(id: nat, hash: Int32, keys: set<Key>)

  /** An entry of an index: `obj` is filed under `key`. */
  datatype Posting = Posting(key: Key, obj: Obj)

  /** The object store, and the postings of all indexes together. */
  datatype Db = Db(store: set<Obj>, index: set<Posting>)

  /** Every posting the given objects should have. */
  function PostingsOf(objects: set<Obj>): (postings: set<Posting>)
    ensures forall p :: p in postings <==> p.obj in objects && p.key in p.obj.keys
  {
    var postings := set o, k | o in objects && k in o.keys :: Posting(k, o);
    assert forall p: Posting :: p.obj in objects && p.key in p.obj.keys ==> p == Posting(p.key, p.obj);
    postings
  }

  /** The index holds exactly the postings of the stored objects. */
  predicate Agrees(db: Db) {
    db.index == PostingsOf(db.store)
  }

  /** The index holds exactly the right postings of every object but the given ones. */
  ghost predicate AgreesExcept(db: Db, tainted: set<Obj>) {
    forall p: Posting | p.obj !in tainted :: p in db.index <==> p in PostingsOf(db.store)
  }

  /** No object is filed under a key it does not have. */
  predicate WellFormed(db: Db) {
    forall p | p in db.index :: p.key in p.obj.keys
  }

  /** What is left of the store and the index when the objects of `hidden` are filtered out. */
  function Outside(db: Db, hidden: set<Obj>): Db {
    Db(db.store - hidden, set p | p in db.index && p.obj !in hidden)
  }

  /** Answer of the query "objects with this key", read from the index and filtered. */
  function IndexAnswer(db: Db, key: Key, hidden: set<Obj>): (found: set<Obj>)
    ensures forall o :: o in found <==> Posting(key, o) in db.index && o !in hidden
  {
    assert forall p: Posting :: p.key == key ==> p == Posting(key, p.obj);
    set p | p in db.index && p.key == key && p.obj !in hidden :: p.obj
  }

  /** Answer of the same query when the engine falls back to scanning the store. */
  function ScanAnswer(db: Db, key: Key, hidden: set<Obj>): (found: set<Obj>)
    ensures found !! hidden && found <= db.store
    ensures forall o | o in db.store && o !in hidden :: o in found <==> key in o.keys
  {
    set o | o in db.store && key in o.keys && o !in hidden
  }

  /** An argument of a bulk operation: the code asks whether it is a `Collection`
      (handed to the store in one call) or only an `Iterable` (walked element by element). */
  datatype Iterable = Collection(elems: seq<Obj>) | Stream(elems: seq<Obj>)

  function SetOf(s: seq<Obj>): set<Obj> {
    set o | o in s
  }

  /** One more element of a sequence, and its postings. */
  lemma SetOfNext(s: seq<Obj>, i: nat)
    requires i < |s|
    ensures SetOf(s[..i + 1]) == SetOf(s[..i]) + {s[i]}
    ensures PostingsOf(SetOf(s[..i + 1])) == PostingsOf(SetOf(s[..i])) + PostingsOf({s[i]})
  {
    assert s[..i + 1] == s[..i] + [s[i]];
    assert SetOf(s[..i + 1]) == SetOf(s[..i]) + {s[i]};
  }

  function Elems(it: Iterable): set<Obj> {
    SetOf(it.elems)
  }

  /** The groups of objects for which all store writes come before all index writes. */
  function Chunks(it: Iterable): seq<set<Obj>> {
    match it
    case Collection(elems) => [Elems(it)]
    case Stream(elems) => seq(|elems|, i requires 0 <= i < |elems| => {elems[i]})
  }

  function Union(chunks: seq<set<Obj>>): (all: set<Obj>)
    ensures forall i | 0 <= i < |chunks| :: chunks[i] <= all
    ensures forall o | o in all :: exists i :: 0 <= i < |chunks| && o in chunks[i]
  {
    if chunks == [] then {}
    else
      var rest := Union(chunks[1..]);
      assert forall i | 1 <= i < |chunks| :: chunks[i] == chunks[1..][i - 1];
      assert forall o | o in rest :: exists i :: 0 <= i < |chunks| && o in chunks[i] by {
        forall o | o in rest ensures exists i :: 0 <= i < |chunks| && o in chunks[i] {
          var j :| 0 <= j < |chunks[1..]| && o in chunks[1..][j];
          assert o in chunks[j + 1];
        }
      }
      chunks[0] + rest
  }

  /** Whichever way an argument is walked, its groups cover exactly its elements. */
  lemma ChunksCover(it: Iterable)
    ensures Union(Chunks(it)) == Elems(it)
  {
    var chunks := Chunks(it);
    match it {
      case Collection(elems) =>
        assert chunks[0] == Elems(it);
      case Stream(elems) =>
        forall o | o in Elems(it) ensures o in Union(chunks) {
          var i :| 0 <= i < |elems| && elems[i] == o;
          assert chunks[i] == {o};
        }
    }
  }

  /** The stored objects that a query for `key` should find. */
  function Matching(objects: set<Obj>, key: Key): (found: set<Obj>)
    ensures found <= objects && forall o | o in objects :: o in found <==> key in o.keys
  {
    set o | o in objects && key in o.keys
  }

  /** A database that agrees but for some objects answers every key query alike from its index and
      from a scan, as far as other objects go; and the scan is always right. */
  lemma AnswersAgreeExcept(db: Db, hidden: set<Obj>, tainted: set<Obj>, key: Key)
    requires AgreesExcept(Outside(db, hidden), tainted)
    ensures ScanAnswer(db, key, hidden) == Matching(db.store - hidden, key)
    ensures IndexAnswer(db, key, hidden) - tainted == ScanAnswer(db, key, hidden) - tainted
  {
    forall o | o in ScanAnswer(db, key, hidden) - tainted ensures o in IndexAnswer(db, key, hidden) {
      assert Posting(key, o) in Outside(db, hidden).index;
    }
    forall o | o in IndexAnswer(db, key, hidden) - tainted ensures o in ScanAnswer(db, key, hidden) {
      var p :| p in db.index && p.key == key && p.obj !in hidden && p.obj == o;
      assert p in Outside(db, hidden).index;
    }
  }

  /** An agreeing database answers every key query alike from its index and from a scan. */
  lemma AnswersAgree(db: Db, hidden: set<Obj>, key: Key)
    requires Agrees(Outside(db, hidden))
    ensures IndexAnswer(db, key, hidden) == ScanAnswer(db, key, hidden) == Matching(db.store - hidden, key)
  {
    AnswersAgreeExcept(db, hidden, {}, key);
    assert IndexAnswer(db, key, hidden) - {} == IndexAnswer(db, key, hidden);
    assert ScanAnswer(db, key, hidden) - {} == ScanAnswer(db, key, hidden);
  }
}
