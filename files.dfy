/** `FileManager`: the map from the ids handed to OpenAI-style clients to the uploaded
    files on the upstream side. The dictionary keeps insertion order, which is the order
    `list_files` reports. */
module Files {
  import opened Common

  datatype FileInfo = FileInfo(
    id: string, geminiFileId: string, sessionName: string, filename: string,
    mimeType: string, bytes: int, createdAt: nat, purpose: string, kind: string)

  /** The record `add_file` stores; `now` is `int(time.time())`. */
  function Record(openaiFileId: string, geminiFileId: string, sessionName: string, filename: string,
                  mimeType: string, size: int, now: nat): (info: FileInfo)
    ensures info.id == openaiFileId && info.geminiFileId == geminiFileId
    ensures info.purpose == "assistants" && info.kind == "file" && info.createdAt == now
  {
    FileInfo(openaiFileId, geminiFileId, sessionName, filename, mimeType, size, now, "assistants", "file")
  }

  /** `order` without `key`. */
  function Without(order: seq<string>, key: string): (r: seq<string>)
    ensures |r| <= |order|
    ensures forall k :: k in r <==> k in order && k != key
  {
    if order == [] then []
    else (if order[0] == key then [] else [order[0]]) + Without(order[1..], key)
  }

  predicate Distinct(order: seq<string>)
  {
    forall i, j :: 0 <= i < j < |order| ==> order[i] != order[j]
  }

  lemma {:induction false} WithoutDistinct(order: seq<string>, key: string)
    requires Distinct(order)
    ensures Distinct(Without(order, key))
  {
    if order != [] {
      WithoutDistinct(order[1..], key);
      assert order[0] !in order[1..];
    }
  }

  /** A duplicate-free order that lists exactly the keys of a map is as long as the map. */
  lemma {:induction false} DistinctCardinality<V>(order: seq<string>, m: map<string, V>)
    requires Distinct(order)
    requires forall k :: k in m <==> k in order
    ensures |order| == |m|
  {
    if order == [] {
      assert m.Keys == {};
    } else {
      var m' := map k | k in m && k != order[0] :: m[k];
      assert order[0] !in order[1..];
      DistinctCardinality(order[1..], m');
      assert m.Keys == m'.Keys + {order[0]};
    }
  }

  class FileManager {
    var files: map<string, FileInfo>
    /** The keys of `files` in insertion order. */
    var order: seq<string>

    ghost predicate Valid()
      reads this
    {
      Distinct(order) && forall k :: k in files <==> k in order
    }

    constructor()
      ensures Valid() && files == map[] && order == []
    {
      files := map[];
      order := [];
    }

    /** `add_file`: stores (or replaces) the record under the client-side id. A replaced
        id keeps its place in the order. */
    method AddFile(openaiFileId: string, geminiFileId: string, sessionName: string, filename: string,
                   mimeType: string, size: int, now: nat) returns (info: FileInfo)
      requires Valid()
      modifies this
      ensures Valid()
      ensures info == Record(openaiFileId, geminiFileId, sessionName, filename, mimeType, size, now)
      ensures files == old(files)[openaiFileId := info]
      ensures order == if openaiFileId in old(files) then old(order) else old(order) + [openaiFileId]
    {
      info := Record(openaiFileId, geminiFileId, sessionName, filename, mimeType, size, now);
      if openaiFileId !in files {
        order := order + [openaiFileId];
      }
      files := files[openaiFileId := info];
    }

    /** `get_file`. */
    method GetFile(openaiFileId: string) returns (r: Option<FileInfo>)
      ensures r.Some? <==> openaiFileId in files
      ensures r.Some? ==> r.value == files[openaiFileId]
    {
      r := if openaiFileId in files then Some(files[openaiFileId]) else None;
    }

    /** `get_gemini_file_id`: a stored record is never empty, so its upstream id is
        returned whenever the id is known. */
    method GetGeminiFileId(openaiFileId: string) returns (r: Option<string>)
      ensures r.Some? <==> openaiFileId in files
      ensures r.Some? ==> r.value == files[openaiFileId].geminiFileId
    {
      var info := GetFile(openaiFileId);
      r := if info.Some? then Some(info.value.geminiFileId) else None;
    }

    /** `get_session_for_file`. */
    method GetSessionForFile(openaiFileId: string) returns (r: Option<string>)
      ensures r.Some? <==> openaiFileId in files
      ensures r.Some? ==> r.value == files[openaiFileId].sessionName
    {
      var info := GetFile(openaiFileId);
      r := if info.Some? then Some(info.value.sessionName) else None;
    }

    /** `delete_file`: answers whether the id was known. */
    method DeleteFile(openaiFileId: string) returns (deleted: bool)
      requires Valid()
      modifies this
      ensures Valid()
      ensures deleted <==> openaiFileId in old(files)
      ensures files == old(files) - {openaiFileId}
      ensures order == Without(old(order), openaiFileId)
    {
      WithoutDistinct(order, openaiFileId);
      if openaiFileId in files {
        files := files - {openaiFileId};
        order := Without(order, openaiFileId);
        return true;
      }
      assert openaiFileId !in order;
      WithoutAbsent(order, openaiFileId);
      return false;
    }

    /** `list_files`: every record once, in insertion order. */
    method ListFiles() returns (r: seq<FileInfo>)
      requires Valid()
      ensures |r| == |files|
      ensures |r| == |order| && forall i :: 0 <= i < |r| ==> order[i] in files && r[i] == files[order[i]]
    {
      DistinctCardinality(order, files);
      r := [];
      var i := 0;
      while i < |order|
        invariant 0 <= i <= |order|
        invariant |r| == i && forall j :: 0 <= j < i ==> order[j] in files && r[j] == files[order[j]]
      {
        r := r + [files[order[i]]];
        i := i + 1;
      }
    }
  }

  lemma {:induction false} WithoutAbsent(order: seq<string>, key: string)
    requires key !in order
    ensures Without(order, key) == order
  {
    if order != [] {
      WithoutAbsent(order[1..], key);
      assert order == [order[0]] + order[1..];
    }
  }

  /** `delete_file` after `add_file` of a new id gives back the files and their order
      as they were. */
  lemma AddThenDeleteRestores(files: map<string, FileInfo>, order: seq<string>, id: string, info: FileInfo)
    requires id !in files && forall k :: k in files <==> k in order
    ensures files[id := info] - {id} == files
    ensures Without(order + [id], id) == order
  {
    WithoutAppended(order, id);
  }

  lemma {:induction false} WithoutAppended(order: seq<string>, key: string)
    requires key !in order
    ensures Without(order + [key], key) == order
  {
    if order == [] {
      assert Without([key], key) == [] + Without([], key);
    } else {
      assert (order + [key])[1..] == order[1..] + [key];
      WithoutAppended(order[1..], key);
      assert order == [order[0]] + order[1..];
    }
  }
}
