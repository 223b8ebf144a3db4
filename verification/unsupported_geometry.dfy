/** `UnsupportedGeometryTypeException`: the message naming the rejected
    geometry type and the accepted ones, joined by its `arrayToString`. */
module UnsupportedGeometry {

  /** A Java reference that may be `null`. */
  datatype Nullable<+T> = Null | NonNull(value: T)

  /** What string concatenation and `StringBuffer.append` write for a
      possibly-null `String`. */
  function Show(s: Nullable<string>): string {
    match s
    case Null => "null"
    case NonNull(v) => v
  }

  /** The texts appended for the elements of a `String[]`. */
  function Shown(a: seq<Nullable<string>>): (r: seq<string>)
    ensures |r| == |a|
    ensures forall k :: 0 <= k < |a| ==> r[k] == Show(a[k])
  {
    if |a| == 0 then [] else [Show(a[0])] + Shown(a[1..])
  }

  /** Reference join: the items in order with `sep` between neighbours. */
  function Join(items: seq<string>, sep: string): string {
    if |items| == 0 then ""
    else if |items| == 1 then items[0]
    else items[0] + sep + Join(items[1..], sep)
  }

  /** Total length of a sequence of strings. */
  function TotalLength(items: seq<string>): nat {
    if |items| == 0 then 0 else |items[0]| + TotalLength(items[1..])
  }

  /** `arrayToString(a, separator)`: `null` if either argument is `null`;
      otherwise the first element, then separator and element for each
      further one, appended left to right. */
  function ArrayToString(a: Nullable<seq<Nullable<string>>>, separator: Nullable<string>): (r: Nullable<string>)
    ensures r.Null? <==> a.Null? || separator.Null?
    ensures r.NonNull? ==> r.value == Join(Shown(a.value), separator.value)
    ensures r.NonNull? && |a.value| == 0 ==> r.value == ""
    ensures r.NonNull? && |a.value| == 1 ==> r.value == Show(a.value[0])
  {
    if a.Null? || separator.Null? then Null
    else if |a.value| == 0 then NonNull("")
    else
      AppendRestIsJoin(a.value, 1, separator.value);
      NonNull(AppendRest(Show(a.value[0]), a.value, 1, separator.value))
  }

  /** The loop of `arrayToString` from index `i` on, `acc` being the buffer. */
  function AppendRest(acc: string, a: seq<Nullable<string>>, i: nat, sep: string): (r: string)
    requires 1 <= i <= |a|
    ensures |acc| <= |r| && r[..|acc|] == acc
    decreases |a| - i
  {
    if i == |a| then acc else AppendRest(acc + sep + Show(a[i]), a, i + 1, sep)
  }

  /** `arrayToString(a)`: the join with `", "`. */
  function ArrayToStringComma(a: Nullable<seq<Nullable<string>>>): (r: Nullable<string>)
    ensures r.Null? <==> a.Null?
    ensures r.NonNull? ==> r.value == Join(Shown(a.value), ", ")
  {
    ArrayToString(a, NonNull(", "))
  }

  const MessageHead: string := "Geometry type "
  const MessageTail: string := " not supported. Expected one of the following: "

  /** The message of `new UnsupportedGeometryTypeException(type, types)`. */
  function Message(unsupportedType: Nullable<string>, supportedTypes: Nullable<seq<Nullable<string>>>): (m: string)
    ensures supportedTypes.NonNull? ==>
      m == MessageHead + Show(unsupportedType) + MessageTail + Join(Shown(supportedTypes.value), ", ")
    ensures supportedTypes.Null? ==> m == MessageHead + Show(unsupportedType) + MessageTail + "null"
  {
    MessageHead + Show(unsupportedType) + MessageTail + Show(ArrayToStringComma(supportedTypes))
  }

  // ---------------------------------------------------------------------
  // Properties

  /** Appending one more item to a non-empty join adds a separator and it. */
  lemma {:induction false} JoinSnoc(items: seq<string>, x: string, sep: string)
    requires |items| >= 1
    ensures Join(items + [x], sep) == Join(items, sep) + sep + x
    decreases |items|
  {
    if |items| == 1 {
      assert (items + [x])[1..] == [x];
    } else {
      assert (items + [x])[1..] == items[1..] + [x];
      JoinSnoc(items[1..], x, sep);
    }
  }

  /** The accumulator loop computes the join of the whole array. */
  lemma {:induction false} AppendRestIsJoin(a: seq<Nullable<string>>, i: nat, sep: string)
    requires 1 <= i <= |a|
    ensures AppendRest(Join(Shown(a[..i]), sep), a, i, sep) == Join(Shown(a), sep)
    decreases |a| - i
  {
    if i == |a| {
      assert a[..i] == a;
    } else {
      assert a[..i + 1] == a[..i] + [a[i]];
      ShownAppend(a[..i], a[i]);
      JoinSnoc(Shown(a[..i]), Show(a[i]), sep);
      AppendRestIsJoin(a, i + 1, sep);
    }
  }

  lemma ShownAppend(a: seq<Nullable<string>>, x: Nullable<string>)
    ensures Shown(a + [x]) == Shown(a) + [Show(x)]
  {
  }

  /** A join of k items holds their characters plus k-1 separators. */
  lemma {:induction false} JoinLength(items: seq<string>, sep: string)
    requires |items| >= 1
    ensures |Join(items, sep)| == TotalLength(items) + (|items| - 1) * |sep|
    decreases |items|
  {
    if |items| > 1 {
      JoinLength(items[1..], sep);
    }
  }

  /** Joining is associative over any cut: the items before index k and
      the items from k on, joined separately, meet at one separator. */
  lemma {:induction false} JoinSplit(items: seq<string>, sep: string, k: nat)
    requires 0 < k < |items|
    ensures Join(items, sep) == Join(items[..k], sep) + sep + Join(items[k..], sep)
    decreases k
  {
    if k > 1 {
      assert items[1..][..k - 1] == items[1..k];
      assert items[1..][k - 1..] == items[k..];
      JoinSplit(items[1..], sep, k - 1);
      assert items[..k][1..] == items[1..k];
    }
  }

  /** The message the encoder raises for a geometry that is neither a
      line string nor a polygon. */
  lemma EncoderMessage(t: string)
    ensures Message(NonNull(t), NonNull([NonNull("LINESTRING"), NonNull("POLYGON")]))
      == "Geometry type " + t + " not supported. Expected one of the following: LINESTRING, POLYGON"
  {
    var names := ["LINESTRING", "POLYGON"];
    assert Shown([NonNull("LINESTRING"), NonNull("POLYGON")]) == names;
    assert names[1..] == ["POLYGON"];
    assert Join(names, ", ") == "LINESTRING, POLYGON";
    var tail := MessageTail + "LINESTRING, POLYGON";
    assert tail == " not supported. Expected one of the following: LINESTRING, POLYGON";
    assert (MessageHead + t) + MessageTail + "LINESTRING, POLYGON" == (MessageHead + t) + tail;
  }
}
