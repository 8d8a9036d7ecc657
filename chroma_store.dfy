/**
 * The part of the Chroma client the retrieval service relies on: named
 * collections of `(id, document, embedding)` records, deleted, created and
 * appended to in place. Embedding vectors are kept opaque; similarity search
 * is left to a parameter of the query.
 */
module ChromaStore {
  import opened Wrappers

  /** An embedding vector; nothing here looks inside it. */
  type Vector = seq<real>

  datatype Record = Record(id: string, document: string, embedding: Vector)

  type Store = map<string, seq<Record>>

  /** The records `collection.add(documents=…, embeddings=…, ids=…)` stores: the i-th of each list together. */
  function Records(ids: seq<string>, documents: seq<string>, embeddings: seq<Vector>): (r: seq<Record>)
    requires |ids| == |documents| == |embeddings|
    ensures |r| == |ids|
    ensures forall i :: 0 <= i < |r| ==> r[i].id == ids[i] && r[i].document == documents[i] && r[i].embedding == embeddings[i]
  {
    seq(|ids|, i requires 0 <= i < |ids| => Record(ids[i], documents[i], embeddings[i]))
  }

  /**
   * The outcome of `collection.add` on the collection `name` of `m`: the store
   * refuses a collection that is not there, lists of different lengths and an
   * empty list of ids; otherwise the new records follow the old ones.
   */
  function AddRecords(m: Store, name: string, documents: seq<string>, embeddings: seq<Vector>, ids: seq<string>): (r: (Result<(), string>, Store))
    ensures r.0.Success? <==> name in m && |documents| == |embeddings| == |ids| && ids != []
    ensures r.0.Failure? ==> r.1 == m
    ensures r.0.Success? ==> r.1.Keys == m.Keys
    ensures r.0.Success? ==> forall n :: n in m && n != name ==> r.1[n] == m[n]
    ensures r.0.Success? ==> |r.1[name]| == |m[name]| + |ids| && r.1[name][..|m[name]|] == m[name]
    ensures r.0.Success? ==> forall i :: 0 <= i < |ids| ==>
              r.1[name][|m[name]| + i] == Record(ids[i], documents[i], embeddings[i])
  {
    if name !in m then (Failure("collection " + name + " does not exist"), m)
    else if !(|documents| == |embeddings| == |ids|) then (Failure("documents, embeddings and ids differ in length"), m)
    else if ids == [] then (Failure("expected ids to be a non-empty list"), m)
    else (Success(()), m[name := m[name] + Records(ids, documents, embeddings)])
  }

  /** A Chroma client: the collections it holds, by name. */
  class Client {
    var collections: Store

    constructor()
      ensures collections == map[]
    {
      collections := map[];
    }

    /** `delete_collection(name)`: raises when there is no such collection. */
    method DeleteCollection(name: string) returns (r: Result<(), string>)
      modifies this
      ensures r.Success? <==> name in old(collections)
      ensures collections == old(collections) - {name}
    {
      if name in collections {
        collections := collections - {name};
        r := Success(());
      } else {
        r := Failure("collection " + name + " does not exist");
      }
    }

    /** `create_collection(name)`: a new, empty collection; raises when the name is taken. */
    method CreateCollection(name: string) returns (r: Result<(), string>)
      modifies this
      ensures r.Success? <==> name !in old(collections)
      ensures r.Success? ==> collections == old(collections)[name := []]
      ensures r.Failure? ==> collections == old(collections)
    {
      if name in collections {
        r := Failure("collection " + name + " already exists");
      } else {
        collections := collections[name := []];
        r := Success(());
      }
    }

    /** `collection.add(documents, embeddings, ids)` on the collection `name`. */
    method Add(name: string, documents: seq<string>, embeddings: seq<Vector>, ids: seq<string>) returns (r: Result<(), string>)
      modifies this
      ensures (r, collections) == AddRecords(old(collections), name, documents, embeddings, ids)
    {
      var outcome := AddRecords(collections, name, documents, embeddings, ids);
      r := outcome.0;
      collections := outcome.1;
    }
  }
}
