/**
 * The form-body parser of the POST handler: the (already percent-decoded)
 * body is split on `&`, every segment is unpacked from `segment.split("=")`
 * into exactly one key and one value, and a dict comprehension collects the
 * pairs, so a key that repeats keeps its last value. Any segment that does
 * not hold exactly one `=` makes the unpacking raise, and then no record is
 * produced at all.
 */
module FormBody {
  import opened Wrappers
  import opened Strings

  /** A submitted message: field name to field value. */
  type Record = map<string, string>

  /** `key, value = segment.split("=")`; None when that unpacking raises. */
  function Unpack(segment: string): (r: Option<(string, string)>)
    ensures r.Some? <==> Count(segment, '=') == 1
    ensures r.Some? ==> segment == r.value.0 + "=" + r.value.1
    ensures r.Some? ==> '=' !in r.value.0 && '=' !in r.value.1
  {
    var parts := Split(segment, '=');
    if |parts| == 2 then
      assert Join(parts[1..], '=') == parts[1];
      Some((parts[0], parts[1]))
    else None
  }

  /** The segment `k=v` (neither side holding `=`) unpacks to `(k, v)`. */
  lemma UnpackPair(k: string, v: string)
    requires '=' !in k && '=' !in v
    ensures Unpack(k + "=" + v) == Some((k, v))
  {
    SplitJoin([k, v], '=');
  }

  /** Unpacks every segment, in order; None as soon as one of them fails. */
  function UnpackAll(segments: seq<string>): (r: Option<seq<(string, string)>>)
    ensures r.Some? <==> forall i :: 0 <= i < |segments| ==> Unpack(segments[i]).Some?
    ensures r.Some? ==> |r.value| == |segments|
    ensures r.Some? ==> forall i :: 0 <= i < |segments| ==> Unpack(segments[i]) == Some(r.value[i])
  {
    if |segments| == 0 then Some([])
    else
      match Unpack(segments[0])
      case None => None
      case Some(p) =>
        match UnpackAll(segments[1..])
        case None => None
        case Some(ps) => Some([p] + ps)
  }

  /** Unpacking a segment list one segment at a time. */
  lemma UnpackAllCons(segment: string, rest: seq<string>)
    requires Unpack(segment).Some? && UnpackAll(rest).Some?
    ensures UnpackAll([segment] + rest) == Some([Unpack(segment).value] + UnpackAll(rest).value)
  {
    assert ([segment] + rest)[0] == segment && ([segment] + rest)[1..] == rest;
  }

  /**
   * The dict comprehension: pairs are inserted in order, so a later pair
   * overwrites an earlier one. Every key comes from some pair, with that
   * pair's value.
   */
  function Collect(pairs: seq<(string, string)>): (m: Record)
    ensures forall k :: k in m <==> exists i :: 0 <= i < |pairs| && pairs[i].0 == k
    ensures forall k :: k in m ==> exists i :: 0 <= i < |pairs| && pairs[i] == (k, m[k])
  {
    if |pairs| == 0 then map[]
    else
      var last := pairs[|pairs| - 1];
      var m0 := Collect(pairs[..|pairs| - 1]);
      assert forall i :: 0 <= i < |pairs| - 1 ==> pairs[..|pairs| - 1][i] == pairs[i];
      m0[last.0 := last.1]
  }

  /** A pair whose key does not occur again later is the one the record keeps. */
  lemma {:induction false} CollectLastWins(pairs: seq<(string, string)>, i: nat)
    requires i < |pairs|
    requires forall j :: i < j < |pairs| ==> pairs[j].0 != pairs[i].0
    ensures pairs[i].0 in Collect(pairs) && Collect(pairs)[pairs[i].0] == pairs[i].1
  {
    if i < |pairs| - 1 {
      var front := pairs[..|pairs| - 1];
      assert forall j :: i < j < |front| ==> front[j] == pairs[j];
      CollectLastWins(front, i);
    }
  }

  /** The `&`-separated segments of a body. */
  function Segments(body: string): seq<string>
  {
    Split(body, '&')
  }

  /** The message a body stands for, or None when the handler raises on it. */
  function Parse(body: string): (r: Option<Record>)
    ensures r.Some? ==> forall k :: k in r.value ==> '=' !in k && '=' !in r.value[k]
    ensures r.Some? ==> forall k :: k in r.value ==> '&' !in k && '&' !in r.value[k]
  {
    match UnpackAll(Segments(body))
    case None => None
    case Some(pairs) => Some(Collect(pairs))
  }

  /** Parsing succeeds exactly when every `&`-separated segment holds exactly one `=`. */
  lemma ParseSucceedsIff(body: string)
    ensures Parse(body).Some? <==>
      forall i :: 0 <= i < |Segments(body)| ==> Count(Segments(body)[i], '=') == 1
  {
  }

  /** The empty body is one empty segment, which has no `=`. */
  lemma ParseEmptyBody()
    ensures Parse("") == None
  {
    assert Segments("") == [""];
  }

  /** An empty segment (as between the two `&` of `a=1&&b=2`) makes the whole parse fail. */
  lemma ParseEmptySegment(body: string, i: nat)
    requires i < |Segments(body)| && Segments(body)[i] == ""
    ensures Parse(body) == None
  {
    assert Count(Segments(body)[i], '=') == 0;
  }

  /** A segment with two or more `=` (as `a=b=c`) makes the whole parse fail. */
  lemma ParseManyEquals(body: string, i: nat)
    requires i < |Segments(body)| && Count(Segments(body)[i], '=') >= 2
    ensures Parse(body) == None
  {
  }

  /** A body without any `=` never parses. */
  lemma ParseNoEquals(body: string)
    requires '=' !in body
    ensures Parse(body) == None
  {
    var segs := Segments(body);
    assert Join(segs, '&') == body;
    JoinHasNoSep(segs, '&', '=');
    assert Count(segs[0], '=') == 0;
  }

  /** A character in no part is in no join of them (other than the separator). */
  lemma {:induction false} JoinHasNoSep(parts: seq<string>, sep: char, c: char)
    requires c != sep && c !in Join(parts, sep)
    ensures forall i :: 0 <= i < |parts| ==> c !in parts[i]
  {
    if |parts| > 1 {
      var rest := Join(parts[1..], sep);
      assert Join(parts, sep) == parts[0] + [sep] + rest;
      assert forall x :: x in parts[0] ==> x in Join(parts, sep);
      assert forall x :: x in rest ==> x in Join(parts, sep);
      JoinHasNoSep(parts[1..], sep, c);
      assert forall i :: 1 <= i < |parts| ==> parts[i] == parts[1..][i - 1];
    }
  }

  /** Every field of a parsed record is literally one of the body's segments, `key=value`. */
  lemma ParseFieldsAreSegments(body: string)
    requires Parse(body).Some?
    ensures forall k :: k in Parse(body).value ==> k + "=" + Parse(body).value[k] in Segments(body)
  {
    var pairs := UnpackAll(Segments(body)).value;
    var r := Parse(body).value;
    forall k | k in r
      ensures k + "=" + r[k] in Segments(body)
    {
      var i :| 0 <= i < |pairs| && pairs[i] == (k, r[k]);
      assert Unpack(Segments(body)[i]) == Some(pairs[i]);
    }
  }

  /**
   * The segment `k=v` puts `k` in the record, and when no later segment
   * starts with `k=` the record maps `k` to `v`: the last occurrence wins.
   */
  lemma ParseKeepsLast(body: string, i: nat, k: string, v: string)
    requires Parse(body).Some?
    requires i < |Segments(body)| && Segments(body)[i] == k + "=" + v
    requires forall j :: i < j < |Segments(body)| ==> !(k + "=" <= Segments(body)[j])
    ensures k in Parse(body).value && Parse(body).value[k] == v
  {
    var segs := Segments(body);
    var pairs := UnpackAll(segs).value;
    assert Unpack(segs[i]) == Some(pairs[i]);
    CountConcat(k + "=", v, '=');
    CountConcat(k, "=", '=');
    UnpackPair(k, v);
    assert pairs[i] == (k, v);
    forall j | i < j < |pairs|
      ensures pairs[j].0 != k
    {
      assert Unpack(segs[j]) == Some(pairs[j]);
      assert segs[j] == (pairs[j].0 + "=") + pairs[j].1;
      assert pairs[j].0 + "=" <= segs[j];
    }
    CollectLastWins(pairs, i);
  }

  /** A two-field body `k1=v1&k2=v2` parses to those fields, the second winning on a shared key. */
  lemma ParseTwoFields(k1: string, v1: string, k2: string, v2: string)
    requires '=' !in k1 && '=' !in v1 && '=' !in k2 && '=' !in v2
    requires '&' !in k1 && '&' !in v1 && '&' !in k2 && '&' !in v2
    ensures Parse(k1 + "=" + v1 + "&" + k2 + "=" + v2) == Some(map[k1 := v1][k2 := v2])
  {
    var s1, s2 := k1 + "=" + v1, k2 + "=" + v2;
    var body := k1 + "=" + v1 + "&" + k2 + "=" + v2;
    assert '&' !in s1 && '&' !in s2;
    JoinCons(s1, [s2], '&');
    assert [s1] + [s2] == [s1, s2];
    assert Join([s1, s2], '&') == body;
    SplitJoin([s1, s2], '&');
    assert Segments(body) == [s1, s2];
    UnpackPair(k1, v1);
    UnpackPair(k2, v2);
    UnpackAllCons(s2, []);
    assert [s2] + [] == [s2];
    assert UnpackAll([s2]) == Some([(k2, v2)] + []);
    assert [(k2, v2)] + [] == [(k2, v2)];
    UnpackAllCons(s1, [s2]);
    var pairs := [(k1, v1), (k2, v2)];
    assert [(k1, v1)] + [(k2, v2)] == pairs;
    assert UnpackAll([s1, s2]) == Some(pairs);
    assert pairs[..1] == [(k1, v1)] && pairs[..1][..0] == [];
    assert Collect(pairs[..1]) == map[k1 := v1];
    assert Collect(pairs) == map[k1 := v1][k2 := v2];
  }

  /** The same key twice keeps only the second value. */
  lemma ParseSameKeyTwice(k: string, v1: string, v2: string)
    requires '=' !in k && '=' !in v1 && '=' !in v2
    requires '&' !in k && '&' !in v1 && '&' !in v2
    ensures Parse(k + "=" + v1 + "&" + k + "=" + v2) == Some(map[k := v2])
  {
    assert map[k := v1][k := v2] == map[k := v2];
    ParseTwoFields(k, v1, k, v2);
  }

  /** A segment repeated later loses to it: `a=1&a=2` gives `a` the value `2`. */
  lemma ParseRepeatedKey()
    ensures Parse("a=1&a=2") == Some(map["a" := "2"])
  {
    var body := "a=1&a=2";
    var k, v1, v2 := "a", "1", "2";
    assert k + "=" + v1 + "&" + k + "=" + v2 == body;
    ParseSameKeyTwice(k, v1, v2);
  }

  /** The body of a typical form submission. */
  lemma ParseExample()
    ensures Parse("name=bob&text=hello") == Some(map["name" := "bob", "text" := "hello"])
  {
    var body := "name=bob&text=hello";
    var k1, v1, k2, v2 := "name", "bob", "text", "hello";
    assert k1 + "=" + v1 + "&" + k2 + "=" + v2 == body;
    ParseTwoFields(k1, v1, k2, v2);
  }

  /** `a=1&&b=2` has an empty middle segment, so it fails. */
  lemma ParseDoubleAmpersand()
    ensures Parse("a=1&&b=2") == None
  {
    var body := "a=1&&b=2";
    var s1, s2, s3 := "a=1", "", "b=2";
    assert '&' !in s1 && '&' !in s3;
    JoinCons(s2, [s3], '&');
    assert [s2] + [s3] == [s2, s3];
    JoinCons(s1, [s2, s3], '&');
    assert [s1] + [s2, s3] == [s1, s2, s3];
    assert s1 + "&" + (s2 + "&" + s3) == body;
    SplitJoin([s1, s2, s3], '&');
    ParseEmptySegment(body, 1);
  }

  /** `a=b=c` is one segment with two `=`, so it fails. */
  lemma ParseDoubleEquals()
    ensures Parse("a=b=c") == None
  {
    var body := "a=b=c";
    var x, y, z := "a", "b", "c";
    assert '&' !in body;
    SplitNoSep(body, '&');
    assert body == x + "=" + (y + "=" + z);
    CountConcat(x + "=", y + "=" + z, '=');
    CountConcat(y + "=", z, '=');
    CountConcat(x, "=", '=');
    CountConcat(y, "=", '=');
    ParseManyEquals(body, 0);
  }
}
