/**
 * The `Face` record the recognition screen hands back to its caller, and its
 * parcel form: the embedding text, then the identifier.
 */
module Faces {
  import opened Wrappers

  datatype Face = Face(embedding: string, identifier: string)

  /** `toString()` on a nullable string: a null becomes the text "null". */
  function NullableToString(s: Option<string>): (r: string)
    ensures s.Some? ==> r == s.value
    ensures s.None? ==> r == "null"
  {
    match s
    case Some(v) => v
    case None => "null"
  }

  /** What `writeToParcel` appends. */
  function Written(f: Face): seq<Option<string>>
  {
    [Some(f.embedding), Some(f.identifier)]
  }

  /** The string at a read position; a read past the written data yields null. */
  function ReadAt(data: seq<Option<string>>, pos: nat): Option<string>
  {
    if pos < |data| then data[pos] else None
  }

  /** The read position after one read at `pos`: it advances unless the data is exhausted. */
  function ReadPast(pos: nat, size: nat): nat
  {
    if pos < size then pos + 1 else pos
  }

  /** The face the parcel constructor builds from the two strings at `pos`. */
  function ReadFace(data: seq<Option<string>>, pos: nat): Face
  {
    Face(NullableToString(ReadAt(data, pos)), NullableToString(ReadAt(data, pos + 1)))
  }

  /** Reading back what was written, with anything queued before or after it, gives the same face. */
  lemma ReadAfterWrite(before: seq<Option<string>>, f: Face, after: seq<Option<string>>)
    ensures ReadFace(before + Written(f) + after, |before|) == f
  {
    var data := before + Written(f) + after;
    assert data[|before|] == Some(f.embedding);
    assert data[|before| + 1] == Some(f.identifier);
  }

  /** Null strings in the parcel come back as the literal text "null", and so does a read past the end. */
  lemma NullsReadAsText(data: seq<Option<string>>, pos: nat)
    requires forall i :: pos <= i < |data| ==> data[i] == None
    ensures ReadFace(data, pos) == Face("null", "null")
  {
  }

  /** `describeContents`: no file descriptors in the parcel. */
  function DescribeContents(): (r: int)
    ensures r == 0
  {
    0
  }

  /** `newArray`: `size` empty slots; a negative size is refused as the array constructor refuses it. */
  function NewArray(size: int): (r: Result<seq<Option<Face>>, string>)
    ensures r.Success? <==> size >= 0
    ensures r.Success? ==> |r.value| == size && forall i :: 0 <= i < |r.value| ==> r.value[i] == None
  {
    if size < 0 then Failure("NegativeArraySizeException")
    else Success(seq(size, _ => None))
  }

  /** A parcel as a queue of nullable strings with a read cursor. */
  class Parcel {
    var data: seq<Option<string>>
    var position: nat

    constructor ()
      ensures data == [] && position == 0
    {
      data := [];
      position := 0;
    }

    method WriteString(s: Option<string>)
      modifies this
      ensures data == old(data) + [s] && position == old(position)
    {
      data := data + [s];
    }

    method ReadString() returns (s: Option<string>)
      modifies this
      ensures s == ReadAt(old(data), old(position))
      ensures data == old(data)
      ensures position == ReadPast(old(position), |data|)
    {
      if position < |data| {
        s := data[position];
        position := position + 1;
      } else {
        s := None;
      }
    }
  }

  /** `writeToParcel`: the embedding, then the identifier, and nothing else. */
  method WriteToParcel(f: Face, parcel: Parcel, flags: int)
    modifies parcel
    ensures parcel.data == old(parcel.data) + Written(f)
    ensures parcel.position == old(parcel.position)
  {
    parcel.WriteString(Some(f.embedding));
    parcel.WriteString(Some(f.identifier));
  }

  /** The parcel constructor (`createFromParcel`): two strings in the order they were written. */
  method FromParcel(parcel: Parcel) returns (f: Face)
    modifies parcel
    ensures f == ReadFace(old(parcel.data), old(parcel.position))
    ensures parcel.data == old(parcel.data)
    ensures parcel.position == ReadPast(ReadPast(old(parcel.position), |parcel.data|), |parcel.data|)
  {
    var embedding := parcel.ReadString();
    var identifier := parcel.ReadString();
    f := Face(NullableToString(embedding), NullableToString(identifier));
  }

  /** Writing a face to a new parcel and reading it back gives the same face. */
  method ParcelRoundTrip(f: Face) returns (g: Face)
    ensures g == f
  {
    var parcel := new Parcel();
    WriteToParcel(f, parcel, 0);
    g := FromParcel(parcel);
    ReadAfterWrite([], f, []);
    assert [] + Written(f) + [] == parcel.data;
  }
}
