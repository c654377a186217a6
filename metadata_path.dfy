/**
 * Dotted object paths in the Tabular Object Model's metadata tree: every
 * metadata object has an optional parent, and its path is its parent's path,
 * a dot and its own name (or, for an object without a name, its object-type
 * text).
 */
module MetadataPath {
  import opened Wrappers
  import opened Strings

  /**
   * A `TOM.MetadataObject`: its name when it is a named metadata object
   * whose name is set, the text of its object type, and its parent.
   */
  datatype MetadataObject = MetadataObject(name: Option<string>, objectTypeText: string, parent: Option<MetadataObject>)

  /** A wrapper object and the metadata object behind it. */
  datatype TabularObject = TabularObject(metadataObject: MetadataObject)

  /** `(obj as TOM.NamedMetadataObject)?.Name ?? obj.ObjectType.ToString()`. */
  function Segment(o: MetadataObject): (r: string)
    ensures o.name.Some? ==> r == o.name.value
    ensures o.name.None? ==> r == o.objectTypeText
  {
    if o.name.Some? then o.name.value else o.objectTypeText
  }

  /** The top of the parent chain. */
  function Root(o: MetadataObject): MetadataObject
    decreases o
  {
    if o.parent.None? then o else Root(o.parent.value)
  }

  /**
   * `obj.GetObjectPath()` on a metadata object: the parent's path, a dot
   * and the object's own segment; the bare segment at the root. The path
   * starts with the root's segment and ends with the object's own.
   */
  function GetObjectPath(o: MetadataObject): (r: string)
    ensures EndsWith(r, Segment(o))
    ensures StartsWith(r, Segment(Root(o)))
    decreases o
  {
    if o.parent.None? then
      ConcatStartsEnds(Segment(o), "");
      assert Segment(o) + "" == Segment(o);
      Segment(o)
    else
      var p := GetObjectPath(o.parent.value);
      ConcatStartsEnds(p + ".", Segment(o));
      ConcatStartsEnds(p, ".");
      StartsWithTransitive(p + "." + Segment(o), p + ".", p);
      StartsWithTransitive(p + "." + Segment(o), p, Segment(Root(o)));
      p + "." + Segment(o)
  }

  /**
   * `obj.GetObjectPath()` on a wrapper object: the path of the metadata
   * object it wraps, which is the segments of its ancestors joined by dots.
   */
  function GetTabularObjectPath(obj: TabularObject): (r: string)
    ensures r == JoinDot(PathSegments(obj.metadataObject))
    ensures EndsWith(r, Segment(obj.metadataObject))
  {
    PathIsJoinedSegments(obj.metadataObject);
    GetObjectPath(obj.metadataObject)
  }

  /** The segments from the root down to the object, root first. */
  function PathSegments(o: MetadataObject): (r: seq<string>)
    ensures |r| >= 1 && r[|r| - 1] == Segment(o) && r[0] == Segment(Root(o))
    decreases o
  {
    if o.parent.None? then [Segment(o)] else PathSegments(o.parent.value) + [Segment(o)]
  }

  /** Strings joined with a dot between each two, as `string.Join(".", ss)`. */
  function JoinDot(ss: seq<string>): string
  {
    if |ss| == 0 then ""
    else if |ss| == 1 then ss[0]
    else ss[0] + "." + JoinDot(ss[1..])
  }

  /** Joining one more string adds a dot and that string at the end. */
  lemma {:induction false} JoinDotAppend(ss: seq<string>, x: string)
    requires |ss| >= 1
    ensures JoinDot(ss + [x]) == JoinDot(ss) + "." + x
    decreases |ss|
  {
    if |ss| == 1 {
      assert ss + [x] == [ss[0], x];
      assert [ss[0], x][1..] == [x];
    } else {
      assert (ss + [x])[1..] == ss[1..] + [x];
      JoinDotAppend(ss[1..], x);
    }
  }

  /** The path is the segments of the parent chain, root first, joined by dots. */
  lemma {:induction false} PathIsJoinedSegments(o: MetadataObject)
    ensures GetObjectPath(o) == JoinDot(PathSegments(o))
    decreases o
  {
    if o.parent.Some? {
      PathIsJoinedSegments(o.parent.value);
      JoinDotAppend(PathSegments(o.parent.value), Segment(o));
    }
  }

  /** A string without a dot in it. */
  predicate NoDot(s: string)
  {
    forall i :: 0 <= i < |s| ==> s[i] != '.'
  }

  /** `s.Split('.')`: the pieces between the dots, always at least one. */
  function SplitDot(s: string): (r: seq<string>)
    ensures |r| >= 1
  {
    if s == [] then [""]
    else
      var rest := SplitDot(s[1..]);
      if s[0] == '.' then [""] + rest else [[s[0]] + rest[0]] + rest[1..]
  }

  /** A string without dots splits into itself. */
  lemma {:induction false} SplitDotNoDot(x: string)
    requires NoDot(x)
    ensures SplitDot(x) == [x]
  {
    if x != [] {
      SplitDotNoDot(x[1..]);
      assert [x[0]] + x[1..] == x;
    }
  }

  /** A dot-free head splits off at the first dot. */
  lemma {:induction false} SplitDotHead(x: string, y: string)
    requires NoDot(x)
    ensures SplitDot(x + "." + y) == [x] + SplitDot(y)
  {
    if x == [] {
      assert x + "." + y == "." + y;
      assert ("." + y)[1..] == y;
    } else {
      assert (x + "." + y)[1..] == x[1..] + "." + y;
      SplitDotHead(x[1..], y);
      assert [x[0]] + x[1..] == x;
    }
  }

  /** Splitting a join of dot-free strings gives the strings back. */
  lemma {:induction false} SplitJoinDot(ss: seq<string>)
    requires |ss| >= 1
    requires forall i :: 0 <= i < |ss| ==> NoDot(ss[i])
    ensures SplitDot(JoinDot(ss)) == ss
    decreases |ss|
  {
    if |ss| == 1 {
      SplitDotNoDot(ss[0]);
    } else {
      SplitDotHead(ss[0], JoinDot(ss[1..]));
      SplitJoinDot(ss[1..]);
    }
  }

  /**
   * When no name along the chain holds a dot, the path determines the chain
   * of segments: splitting it at the dots gives them back, root first.
   */
  lemma PathRoundTrip(o: MetadataObject)
    requires forall i :: 0 <= i < |PathSegments(o)| ==> NoDot(PathSegments(o)[i])
    ensures SplitDot(GetObjectPath(o)) == PathSegments(o)
  {
    PathIsJoinedSegments(o);
    SplitJoinDot(PathSegments(o));
  }

  /**
   * A name with a dot in it makes the path ambiguous: a root object named
   * "x.y" and an object named "y" under a root object named "x" are
   * different objects with the same path.
   */
  lemma DottedNameAmbiguous(x: string, y: string, rootType: string, childType: string)
    ensures var dotted := MetadataObject(Some(x + "." + y), rootType, None);
      var child := MetadataObject(Some(y), childType, Some(MetadataObject(Some(x), rootType, None)));
      dotted != child && GetObjectPath(dotted) == GetObjectPath(child) == x + "." + y
  {
  }

  /** An object without a name contributes its object-type text. */
  lemma UnnamedSegment(objectTypeText: string, parent: MetadataObject)
    ensures GetObjectPath(MetadataObject(None, objectTypeText, Some(parent)))
         == GetObjectPath(parent) + "." + objectTypeText
  {
  }
}
