/**
 * The in-memory document store: an insertion-ordered dictionary from
 * document id to document, and a pointer to the "current" document.
 *
 * The random id (`uuid4`) and the upload clock (`utcnow`) are inputs of
 * `StoreDocument`.
 */
module Storage {
  import opened Wrappers

  /** Seconds since the epoch; the store only records it. */
  type Timestamp = int

  /** A stored document. It is never changed after it is stored. */
  datatype Document = Document(
    id: string,
    filename: string,
    content: string,
    pageCount: int,
    characterCount: int,
    uploadedAt: Timestamp)

  /** No key occurs twice. */
  predicate Distinct<T(==)>(s: seq<T>)
  {
    forall i, j :: 0 <= i < j < |s| ==> s[i] != s[j]
  }

  /** `s` with every occurrence of `x` removed, the rest in the same order. */
  function Without<T(==)>(s: seq<T>, x: T): seq<T>
  {
    if s == [] then []
    else if s[0] == x then Without(s[1..], x)
    else [s[0]] + Without(s[1..], x)
  }

  /** Removing a key from a list without repeats cuts it out at its position and keeps everything else in order. */
  lemma {:induction false} WithoutAt<T>(s: seq<T>, k: nat)
    requires Distinct(s) && k < |s|
    ensures Without(s, s[k]) == s[..k] + s[k + 1..]
  {
    if k == 0 {
      WithoutAbsent(s[1..], s[0]);
    } else {
      WithoutAt(s[1..], k - 1);
      assert s[1..][k - 1] == s[k];
      assert s[..k] == [s[0]] + s[1..][..k - 1];
      assert s[k + 1..] == s[1..][k..];
    }
  }

  /** Removing an absent key changes nothing. */
  lemma {:induction false} WithoutAbsent<T>(s: seq<T>, x: T)
    requires x !in s
    ensures Without(s, x) == s
  {
    if s != [] {
      assert s == [s[0]] + s[1..];
      WithoutAbsent(s[1..], x);
    }
  }

  /** The key order after a removal has no repeats and holds exactly the other keys. */
  lemma WithoutKeys<T>(s: seq<T>, x: T)
    requires Distinct(s)
    ensures Distinct(Without(s, x))
    ensures forall y :: y in Without(s, x) <==> y in s && y != x
  {
    if x in s {
      var k :| 0 <= k < |s| && s[k] == x;
      WithoutAt(s, k);
      var r := s[..k] + s[k + 1..];
      forall y | y in s && y != x ensures y in r {
        var i :| 0 <= i < |s| && s[i] == y;
        if i < k { assert r[i] == y; } else { assert r[i - 1] == y; }
      }
    } else {
      WithoutAbsent(s, x);
    }
  }

  /**
   * After deleting `x`, the last remaining key in insertion order is the
   * key stored most recently before `x` if `x` was the last one, and the
   * old last key otherwise.
   */
  lemma LastAfterRemoval<T>(s: seq<T>, x: T)
    requires Distinct(s) && x in s && |s| >= 2
    ensures var r := Without(s, x);
            |r| == |s| - 1 &&
            r[|r| - 1] == if s[|s| - 1] == x then s[|s| - 2] else s[|s| - 1]
  {
    var k :| 0 <= k < |s| && s[k] == x;
    WithoutAt(s, k);
  }

  /** A map and a sequence with the same keys are empty together. */
  lemma SameKeysEmpty(m: map<string, Document>, s: seq<string>)
    requires forall k :: k in m <==> k in s
    ensures m == map[] <==> s == []
  {
    if s != [] {
      assert s[0] in m;
    }
    if m != map[] {
      var k :| k in m;
      assert k in s;
    }
  }

  /**
   * The store invariant on the store's three parts: `order` lists every key
   * once; every id is a non-empty string and is the id of the document
   * stored under it; the character count of a document is the length of its
   * content; and the current id, when set, names a stored document.
   */
  ghost predicate Consistent(documents: map<string, Document>, order: seq<string>, currentId: Option<string>)
  {
    && Distinct(order)
    && (forall k :: k in documents <==> k in order)
    && (forall k :: k in documents ==>
          && k != []
          && documents[k].id == k
          && documents[k].characterCount == |documents[k].content|)
    && (currentId.Some? ==> currentId.value in documents)
  }

  /** The current id after `id` is deleted: unchanged, or the last remaining key, or none. */
  function NextCurrent(order: seq<string>, currentId: Option<string>, id: string): Option<string>
  {
    if currentId != Some(id) then currentId
    else if order == [] then None
    else Some(order[|order| - 1])
  }

  /** Deleting a stored key keeps the store invariant. */
  lemma RemovalConsistent(documents: map<string, Document>, order: seq<string>, currentId: Option<string>, id: string)
    requires Consistent(documents, order, currentId) && id in documents
    ensures Consistent(documents - {id}, Without(order, id), NextCurrent(Without(order, id), currentId, id))
  {
    WithoutKeys(order, id);
    var rest := Without(order, id);
    var next := NextCurrent(rest, currentId, id);
    if next.Some? && currentId == Some(id) {
      assert rest[|rest| - 1] in rest;
    }
  }

  class StorageService {
    /** The documents by id (`_documents`). */
    var documents: map<string, Document>
    /** The keys of `documents` in insertion order, as a Python dict keeps them. */
    var order: seq<string>
    /** The id of the current document (`_current_document_id`). */
    var currentId: Option<string>

    /** The store invariant, `Consistent`, on the current fields. */
    ghost predicate Valid()
      reads this
    {
      Consistent(documents, order, currentId)
    }

    /** An empty store with no current document. */
    constructor ()
      ensures Valid()
      ensures documents == map[] && order == [] && currentId == None
    {
      documents := map[];
      order := [];
      currentId := None;
    }

    /**
     * `store_document`: records a new document under the fresh id and makes
     * it the current one; every other entry is left as it was.
     */
    method StoreDocument(freshId: string, filename: string, content: string, pageCount: int, uploadedAt: Timestamp)
      returns (document: Document)
      requires Valid()
      requires freshId != [] && freshId !in documents
      modifies this
      ensures Valid()
      ensures document == Document(freshId, filename, content, pageCount, |content|, uploadedAt)
      ensures documents == old(documents)[freshId := document]
      ensures order == old(order) + [freshId]
      ensures currentId == Some(freshId)
    {
      document := Document(freshId, filename, content, pageCount, |content|, uploadedAt);
      documents := documents[freshId := document];
      order := order + [freshId];
      currentId := Some(freshId);
    }

    /** `get_document`: the document stored under `id`, if any. */
    method GetDocument(id: string) returns (r: Option<Document>)
      requires Valid()
      ensures r.Some? <==> id in order
      ensures r.Some? ==> r.value == documents[id] && r.value.id == id
    {
      if id in documents {
        r := Some(documents[id]);
      } else {
        r := None;
      }
    }

    /**
     * `get_current_document`: the document the current id names.
     * `get_current_document` tests the id for truthiness; ids are never
     * empty, so that test only asks whether an id is set.
     */
    method GetCurrentDocument() returns (r: Option<Document>)
      requires Valid()
      ensures r.Some? <==> currentId.Some?
      ensures r.Some? ==> r.value == documents[currentId.value] && r.value.id == currentId.value
    {
      if currentId.Some? && currentId.value != [] {
        var id := currentId.value;
        if id in documents {
          r := Some(documents[id]);
        } else {
          r := None;
        }
      } else {
        r := None;
      }
    }

    /** `has_documents`: whether anything is stored. */
    method HasDocuments() returns (b: bool)
      requires Valid()
      ensures b <==> order != []
      ensures !b ==> currentId == None
    {
      SameKeysEmpty(documents, order);
      b := |documents| > 0;
    }

    /**
     * `delete_document`: removes the entry for `id` if there is one. When it
     * was the current document, the current id moves to the last remaining
     * key in insertion order, or to none when the store is now empty.
     */
    method DeleteDocument(id: string) returns (deleted: bool)
      requires Valid()
      modifies this
      ensures Valid()
      ensures deleted <==> id in old(documents)
      ensures documents == old(documents) - {id}
      ensures order == Without(old(order), id)
      ensures currentId == NextCurrent(order, old(currentId), id)
    {
      if id in documents {
        RemovalConsistent(documents, order, currentId, id);
        var rest := Without(order, id);
        documents := documents - {id};
        if currentId == Some(id) {
          SameKeysEmpty(documents, rest);
          if documents != map[] {
            currentId := Some(rest[|rest| - 1]);
          } else {
            currentId := None;
          }
        }
        order := rest;
        return true;
      }
      WithoutAbsent(order, id);
      return false;
    }

    /** `clear_all`: forgets every document and the current id. */
    method ClearAll()
      requires Valid()
      modifies this
      ensures Valid()
      ensures documents == map[] && order == [] && currentId == None
    {
      documents := map[];
      order := [];
      currentId := None;
    }
  }
}
