/**
 * The recognition record the model returns: a result with an id, a title,
 * a distance, a location and an optional embedding ("extra"), and its text
 * form.
 */
module Classifier {
  import opened Wrappers
  import opened Text
  import opened Extensions
  import opened EmbeddingCodec

  /** `String.trim()` removes every leading and trailing character up to and including the space. */
  predicate IsTrimmable(c: char)
  {
    c <= ' '
  }

  /**
   * The text `toString` builds before trimming: each part that is present,
   * followed by one space, in the order id, title, distance, location.
   * `percent` stands for `%.1f` and `place` for the location's own text.
   */
  function Untrimmed(id: Option<string>, title: Option<string>, distance: Option<real>, location: Option<RectF>,
                     percent: real -> string, place: RectF -> string): string
  {
    IdPart(id) + TitlePart(title) + DistancePart(distance, percent) + LocationPart(location, place)
  }

  function IdPart(id: Option<string>): string
  {
    if id.Some? then "[" + id.value + "] " else ""
  }

  function TitlePart(title: Option<string>): string
  {
    if title.Some? then title.value + " " else ""
  }

  function DistancePart(distance: Option<real>, percent: real -> string): string
  {
    if distance.Some? then "(" + percent(distance.value * 100.0) + "%) " else ""
  }

  function LocationPart(location: Option<RectF>, place: RectF -> string): string
  {
    if location.Some? then place(location.value) + " " else ""
  }

  /** The text form: the assembled parts, trimmed. */
  function Described(id: Option<string>, title: Option<string>, distance: Option<real>, location: Option<RectF>,
                     percent: real -> string, place: RectF -> string): string
  {
    Trim(Untrimmed(id, title, distance, location, percent, place), IsTrimmable)
  }

  /** A recognition with nothing set prints as the empty string. */
  lemma NothingSetIsEmpty(percent: real -> string, place: RectF -> string)
    ensures Described(None, None, None, None, percent, place) == ""
  {
  }

  /** A present id always opens the text, in square brackets. */
  lemma IdOpensText(id: string, title: Option<string>, distance: Option<real>, location: Option<RectF>,
                    percent: real -> string, place: RectF -> string)
    ensures var s := Described(Some(id), title, distance, location, percent, place);
      |s| >= |id| + 2 && s[..|id| + 2] == "[" + id + "]"
  {
    var u := Untrimmed(Some(id), title, distance, location, percent, place);
    var p := "[" + id + "]";
    var q := u[|p|..];
    assert u == p + q;
    TrimStartPrefix([], u, IsTrimmable);
    assert [] + u == u;
    TrimEndKeepsPrefix(p, q, IsTrimmable);
    assert (p + TrimEnd(q, IsTrimmable))[..|p|] == p;
  }

  /**
   * With every part present and no surrounding blanks in the outer texts,
   * the result is exactly the four parts separated by single spaces: the
   * trailing space goes and nothing else changes.
   */
  lemma AllPartsInOrder(id: string, title: string, distance: real, location: RectF,
                        percent: real -> string, place: RectF -> string)
    requires |place(location)| > 0 && !IsTrimmable(place(location)[|place(location)| - 1])
    ensures Described(Some(id), Some(title), Some(distance), Some(location), percent, place) ==
            ("[" + id + "] ") + (title + " ") + ("(" + percent(distance * 100.0) + "%) ") + place(location)
  {
    var p := place(location);
    var w := IdPart(Some(id)) + TitlePart(Some(title)) + DistancePart(Some(distance), percent);
    assert Untrimmed(Some(id), Some(title), Some(distance), Some(location), percent, place) == w + (p + " ");
    assert w + (p + " ") == (w + p) + " ";
    assert (w + p)[0] == '[';
    assert (w + p)[|w + p| - 1] == p[|p| - 1];
    TrimFinalSpace(w + p);
  }

  /** Trimming text that starts and ends with printable characters and has one trailing space drops just that space. */
  lemma TrimFinalSpace(w: string)
    requires |w| > 0 && !IsTrimmable(w[0]) && !IsTrimmable(w[|w| - 1])
    ensures Trim(w + " ", IsTrimmable) == w
  {
    assert [] + w + " " == w + " ";
    TrimWrapped([], w, " ", IsTrimmable);
  }

  /** A recognition result; only its embedding can change after construction. */
  class Recognition {
    const id: Option<string>
    const title: Option<string>
    const distance: Option<real>
    const location: Option<RectF>
    var extra: Option<Matrix>

    /** A new recognition carries no embedding. */
    constructor (id: Option<string>, title: Option<string>, distance: Option<real>, location: Option<RectF>)
      ensures this.id == id && this.title == title && this.distance == distance && this.location == location
      ensures extra == None
    {
      this.id := id;
      this.title := title;
      this.distance := distance;
      this.location := location;
      extra := None;
    }

    method SetExtra(extra: Option<Matrix>)
      modifies this
      ensures this.extra == extra
    {
      this.extra := extra;
    }

    /** Returns exactly what the last `SetExtra` stored. */
    method GetExtra() returns (extra: Option<Matrix>)
      ensures extra == this.extra
    {
      extra := this.extra;
    }

    /** `toString`: appends the present parts one by one, then trims. */
    method ToString(percent: real -> string, place: RectF -> string) returns (s: string)
      ensures s == Described(id, title, distance, location, percent, place)
      ensures |s| > 0 ==> !IsTrimmable(s[0]) && !IsTrimmable(s[|s| - 1])
    {
      var resultString := "";
      if id.Some? {
        resultString := resultString + ("[" + id.value + "] ");
      }
      ghost var sofar := IdPart(id);
      assert resultString == sofar;
      if title.Some? {
        resultString := resultString + (title.value + " ");
      } else {
        assert sofar + TitlePart(title) == sofar;
      }
      sofar := sofar + TitlePart(title);
      if distance.Some? {
        resultString := resultString + ("(" + percent(distance.value * 100.0) + "%) ");
      } else {
        assert sofar + DistancePart(distance, percent) == sofar;
      }
      sofar := sofar + DistancePart(distance, percent);
      if location.Some? {
        resultString := resultString + (place(location.value) + " ");
      } else {
        assert sofar + LocationPart(location, place) == sofar;
      }
      sofar := sofar + LocationPart(location, place);
      assert resultString == sofar;
      s := Trim(resultString, IsTrimmable);
    }
  }
}
