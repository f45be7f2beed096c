/**
 * The two string helpers of Go's `strings` package that the sync and search commands use:
 * `strings.Join` and `strings.Split` with a one-character separator.
 */
module Strings {

  /** `strings.Join(parts, sep)`: the parts with `sep` between neighbours. */
  function Join(parts: seq<string>, sep: string): (r: string)
    ensures parts == [] ==> r == ""
    ensures |parts| == 1 ==> r == parts[0]
  {
    if parts == [] then ""
    else if |parts| == 1 then parts[0]
    else Join(parts[..|parts| - 1], sep) + sep + parts[|parts| - 1]
  }

  /** The summed length of `parts`. */
  function TotalLength(parts: seq<string>): nat
  {
    if parts == [] then 0 else TotalLength(parts[..|parts| - 1]) + |parts[|parts| - 1]|
  }

  /** Joining pays one separator between each pair of neighbours. */
  lemma {:induction false} JoinLength(parts: seq<string>, sep: string)
    requires parts != []
    ensures |Join(parts, sep)| == TotalLength(parts) + (|parts| - 1) * |sep|
  {
    if |parts| > 1 {
      var init := parts[..|parts| - 1];
      JoinLength(init, sep);
      assert init[..|init| - 1] == parts[..|parts| - 1][..|init| - 1];
    }
  }

  /** Appending one more part to a non-empty list adds the separator and the part. */
  lemma JoinSnoc(parts: seq<string>, sep: string, last: string)
    requires parts != []
    ensures Join(parts + [last], sep) == Join(parts, sep) + sep + last
  {
    assert (parts + [last])[..|parts|] == parts;
  }

  /** Prepending a part to a non-empty list adds the part and the separator in front. */
  lemma {:induction false} JoinCons(first: string, parts: seq<string>, sep: string)
    requires parts != []
    ensures Join([first] + parts, sep) == first + sep + Join(parts, sep)
  {
    if |parts| == 1 {
      assert ([first] + parts)[..1] == [first];
    } else {
      var init := parts[..|parts| - 1];
      var last := parts[|parts| - 1];
      assert [first] + parts == ([first] + init) + [last];
      assert parts == init + [last];
      JoinSnoc([first] + init, sep, last);
      JoinCons(first, init, sep);
      JoinSnoc(init, sep, last);
    }
  }

  /**
   * `strings.Split(s, [c])`: the maximal runs between occurrences of `c`.
   * Like Go, the empty string splits into one empty part.
   */
  function Split(s: string, c: char): (r: seq<string>)
    ensures |r| >= 1
    ensures forall i :: 0 <= i < |r| ==> c !in r[i]
  {
    if s == [] then [""]
    else
      var rest := Split(s[1..], c);
      if s[0] == c then [""] + rest
      else [[s[0]] + rest[0]] + rest[1..]
  }

  /** Splitting and joining back with the same separator gives the string back. */
  lemma {:induction false} JoinSplit(s: string, c: char)
    ensures Join(Split(s, c), [c]) == s
  {
    if s != [] {
      var rest := Split(s[1..], c);
      JoinSplit(s[1..], c);
      if s[0] == c {
        JoinCons("", rest, [c]);
      } else if |rest| == 1 {
      } else {
        var tail := rest[1..];
        assert rest == [rest[0]] + tail;
        JoinCons(rest[0], tail, [c]);
        JoinCons([s[0]] + rest[0], tail, [c]);
      }
    }
  }

  /** Joining parts free of the separator and splitting again gives the parts back. */
  lemma {:induction false} SplitJoin(parts: seq<string>, c: char)
    requires parts != []
    requires forall i :: 0 <= i < |parts| ==> c !in parts[i]
    ensures Split(Join(parts, [c]), c) == parts
  {
    if |parts| == 1 {
      SplitPlain(parts[0], c);
    } else {
      var tail := parts[1..];
      assert parts == [parts[0]] + tail;
      JoinCons(parts[0], tail, [c]);
      SplitJoin(tail, c);
      SplitAppend(parts[0], Join(tail, [c]), c);
    }
  }

  /** A string without the separator splits into itself. */
  lemma {:induction false} SplitPlain(s: string, c: char)
    requires c !in s
    ensures Split(s, c) == [s]
  {
    if s != [] {
      SplitPlain(s[1..], c);
      assert [s[0]] + s[1..] == s;
    }
  }

  /** A separator-free prefix followed by the separator becomes the first part. */
  lemma {:induction false} SplitAppend(w: string, t: string, c: char)
    requires c !in w
    ensures Split(w + [c] + t, c) == [w] + Split(t, c)
  {
    if w == [] {
      assert w + [c] + t == [c] + t;
      assert ([c] + t)[1..] == t;
    } else {
      assert (w + [c] + t)[1..] == w[1..] + [c] + t;
      SplitAppend(w[1..], t, c);
      assert [w[0]] + w[1..] == w;
    }
  }

  /** The parts after the first, each with `d` put in front. */
  function Prefixed(parts: seq<string>, d: char): (r: seq<string>)
    ensures |r| == |parts|
    ensures parts != [] ==> r[0] == parts[0]
    ensures forall i :: 0 < i < |parts| ==> r[i] == [d] + parts[i]
  {
    if parts == [] then [] else [parts[0]] + seq(|parts| - 1, i requires 0 <= i < |parts| - 1 => [d] + parts[i + 1])
  }

  /** Joining with a two-character separator is joining, with its first character, the parts prefixed by its second. */
  lemma {:induction false} JoinTwoCharSep(parts: seq<string>, c: char, d: char)
    ensures Join(parts, [c, d]) == Join(Prefixed(parts, d), [c])
  {
    if |parts| >= 2 {
      var init, last := parts[..|parts| - 1], parts[|parts| - 1];
      JoinTwoCharSep(init, c, d);
      var p := Prefixed(parts, d);
      assert p[..|p| - 1] == Prefixed(init, d);
      assert p[|p| - 1] == [d] + last;
      assert [c, d] + last == [c] + ([d] + last);
    }
  }

  /**
   * Joining with ", " parts free of ',' and splitting at ',' gives one piece
   * per part: the first as it was, the others after a space.
   */
  lemma SplitCommaJoin(parts: seq<string>)
    requires parts != []
    requires forall i :: 0 <= i < |parts| ==> ',' !in parts[i]
    ensures Split(Join(parts, ", "), ',') == Prefixed(parts, ' ')
  {
    var p := Prefixed(parts, ' ');
    JoinTwoCharSep(parts, ',', ' ');
    forall i | 0 <= i < |p| ensures ',' !in p[i] {
      if i > 0 {
        assert p[i] == [' '] + parts[i];
      }
    }
    SplitJoin(p, ',');
  }

  /** A character found in no part and not in the separator is not in the joined string. */
  lemma {:induction false} JoinFree(parts: seq<string>, sep: string, c: char)
    requires c !in sep
    requires forall i :: 0 <= i < |parts| ==> c !in parts[i]
    ensures c !in Join(parts, sep)
  {
    if |parts| > 1 {
      var init := parts[..|parts| - 1];
      assert forall i :: 0 <= i < |init| ==> init[i] == parts[i];
      JoinFree(init, sep, c);
      assert parts[|parts| - 1] == parts[|parts| - 1];
    }
  }

  /** The parts of a string free of `c` are free of `c`. */
  lemma {:induction false} SplitFree(s: string, d: char, c: char)
    requires c !in s
    ensures forall i :: 0 <= i < |Split(s, d)| ==> c !in Split(s, d)[i]
  {
    if s != [] {
      assert s == [s[0]] + s[1..];
      SplitFree(s[1..], d, c);
    }
  }
}
