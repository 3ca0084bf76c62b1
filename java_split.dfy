/** java.lang.String.split for a regular expression that matches exactly one
    literal character (as "\\|" and " " do), in its two variants:
    a positive limit (at most limit - 1 splits, the rest kept whole, trailing
    empty parts kept) and limit 0 (split everywhere, trailing empty parts
    removed, but an input without the separator comes back whole). */
module JavaSplit {

  /** Joins the parts with one separator between consecutive parts. */
  function Join(parts: seq<string>, sep: char): string
  {
    if |parts| == 0 then ""
    else if |parts| == 1 then parts[0]
    else parts[0] + [sep] + Join(parts[1..], sep)
  }

  /** Position of the first occurrence of `c` in `s`. */
  function FirstIndex(s: string, c: char): (i: nat)
    requires c in s
    ensures i < |s| && s[i] == c && c !in s[..i]
  {
    if s[0] == c then 0
    else
      var k := FirstIndex(s[1..], c);
      assert s[..k + 1] == [s[0]] + s[1..][..k];
      k + 1
  }

  /** split(sep, limit) with limit >= 1. A leading empty part is kept, because
      a one-character separator is a match of positive width. */
  function SplitLimit(s: string, sep: char, limit: nat): (r: seq<string>)
    requires limit >= 1
    ensures 1 <= |r| <= limit
    decreases limit
  {
    if limit == 1 || sep !in s then [s]
    else
      var i := FirstIndex(s, sep);
      [s[..i]] + SplitLimit(s[i + 1..], sep, limit - 1)
  }

  /** Every part of splitting at every occurrence, empty parts included. */
  function SplitAll(s: string, sep: char): (r: seq<string>)
    ensures |r| >= 1
  {
    if |s| == 0 then [""]
    else
      var rest := SplitAll(s[1..], sep);
      if s[0] == sep then [""] + rest
      else [[s[0]] + rest[0]] + rest[1..]
  }

  /** Drops the empty parts at the end of `parts`. */
  function DropTrailingEmpty(parts: seq<string>): (r: seq<string>)
    ensures |r| <= |parts| && r == parts[..|r|]
    ensures r == [] || r[|r| - 1] != ""
    ensures forall k :: |r| <= k < |parts| ==> parts[k] == ""
  {
    if |parts| > 0 && parts[|parts| - 1] == "" then DropTrailingEmpty(parts[..|parts| - 1])
    else parts
  }

  /** split(sep), that is split(sep, 0). */
  function Split(s: string, sep: char): (r: seq<string>)
    ensures sep !in s ==> r == [s]
    ensures forall k :: 0 <= k < |r| ==> sep !in r[k]
    ensures sep in s ==> r == [] || r[|r| - 1] != ""
  {
    if sep !in s then [s]
    else
      SplitAllNoSepInParts(s, sep);
      DropTrailingEmpty(SplitAll(s, sep))
  }

  // ---------------------------------------------------------------------------
  // Splitting with a positive limit

  /** Joining the parts of a limited split gives back the input. */
  lemma {:induction false} SplitLimitJoin(s: string, sep: char, limit: nat)
    requires limit >= 1
    ensures Join(SplitLimit(s, sep, limit), sep) == s
    decreases limit
  {
    if limit > 1 && sep in s {
      var i := FirstIndex(s, sep);
      var tail := SplitLimit(s[i + 1..], sep, limit - 1);
      SplitLimitJoin(s[i + 1..], sep, limit - 1);
      JoinCons(s[..i], tail, sep);
      assert s == s[..i] + [sep] + s[i + 1..];
    }
  }

  /** Joining a part in front of non-empty parts puts a separator after it. */
  lemma JoinCons(head: string, tail: seq<string>, sep: char)
    requires |tail| >= 1
    ensures Join([head] + tail, sep) == head + [sep] + Join(tail, sep)
  {
    assert ([head] + tail)[1..] == tail;
  }

  /** No part but the last holds the separator, and the last holds none
      either unless all `limit` parts were used. */
  predicate LimitPartsFree(r: seq<string>, sep: char, limit: nat)
    requires |r| >= 1
  {
    (forall k :: 0 <= k < |r| - 1 ==> sep !in r[k]) &&
    (|r| < limit ==> sep !in r[|r| - 1])
  }

  /** The parts of split(sep, limit) are as LimitPartsFree says. */
  lemma {:induction false} SplitLimitParts(s: string, sep: char, limit: nat)
    requires limit >= 1
    ensures LimitPartsFree(SplitLimit(s, sep, limit), sep, limit)
    decreases limit
  {
    if limit > 1 && sep in s {
      var i := FirstIndex(s, sep);
      var tail := SplitLimit(s[i + 1..], sep, limit - 1);
      SplitLimitParts(s[i + 1..], sep, limit - 1);
      ConsFreeParts(s[..i], tail, sep, limit);
    }
  }

  /** Putting a part free of the separator in front of the parts of a split
      with one part less to go keeps LimitPartsFree. */
  lemma ConsFreeParts(head: string, tail: seq<string>, sep: char, limit: nat)
    requires sep !in head && 1 <= |tail| && limit >= 2
    requires LimitPartsFree(tail, sep, limit - 1)
    ensures LimitPartsFree([head] + tail, sep, limit)
  {
    var r := [head] + tail;
    assert forall k :: 1 <= k < |r| ==> r[k] == tail[k - 1];
  }

  /** The parts are unique: a part free of the separator, then the separator,
      splits off exactly that part. */
  lemma SplitLimitCons(head: string, sep: char, tail: string, limit: nat)
    requires limit >= 2 && sep !in head
    ensures SplitLimit(head + [sep] + tail, sep, limit) == [head] + SplitLimit(tail, sep, limit - 1)
  {
    var s := head + [sep] + tail;
    assert s[|head|] == sep;
    var i := FirstIndex(s, sep);
    assert i == |head| by {
      assert forall k :: 0 <= k < |head| ==> s[k] == head[k];
    }
    assert s[..i] == head;
    assert s[i + 1..] == tail;
  }

  /** Without the separator the input comes back whole. */
  lemma SplitLimitNoSep(s: string, sep: char, limit: nat)
    requires limit >= 1 && sep !in s
    ensures SplitLimit(s, sep, limit) == [s]
  {
  }

  // ---------------------------------------------------------------------------
  // Splitting everywhere

  /** Joining the parts of splitting everywhere gives back the input. */
  lemma {:induction false} JoinSplitAll(s: string, sep: char)
    ensures Join(SplitAll(s, sep), sep) == s
  {
    if |s| > 0 {
      var rest := SplitAll(s[1..], sep);
      JoinSplitAll(s[1..], sep);
      if s[0] == sep {
        assert Join([""] + rest, sep) == "" + [sep] + Join(rest, sep) by {
          assert ([""] + rest)[1..] == rest;
        }
        assert s == [s[0]] + s[1..];
      } else {
        var r := [[s[0]] + rest[0]] + rest[1..];
        if |rest| == 1 {
          assert Join(r, sep) == [s[0]] + rest[0];
        } else {
          assert r[1..] == rest[1..];
          assert Join(r, sep) == [s[0]] + rest[0] + [sep] + Join(rest[1..], sep);
        }
        assert s == [s[0]] + s[1..];
      }
    }
  }

  /** No part of splitting everywhere holds the separator. */
  lemma {:induction false} SplitAllNoSepInParts(s: string, sep: char)
    ensures forall k :: 0 <= k < |SplitAll(s, sep)| ==> sep !in SplitAll(s, sep)[k]
  {
    if |s| > 0 {
      SplitAllNoSepInParts(s[1..], sep);
      var rest := SplitAll(s[1..], sep);
      if s[0] != sep {
        var r := [[s[0]] + rest[0]] + rest[1..];
        forall k | 0 <= k < |r| ensures sep !in r[k] {
          if k > 0 { assert r[k] == rest[k]; }
        }
      }
    }
  }

  /** Without the separator, splitting everywhere gives the input whole. */
  lemma {:induction false} SplitAllNoSep(s: string, sep: char)
    requires sep !in s
    ensures SplitAll(s, sep) == [s]
  {
    if |s| > 0 {
      SplitAllNoSep(s[1..], sep);
      assert s == [s[0]] + s[1..];
    }
  }

  /** A part free of the separator, then the separator, is split off first. */
  lemma {:induction false} SplitAllCons(head: string, sep: char, tail: string)
    requires sep !in head
    ensures SplitAll(head + [sep] + tail, sep) == [head] + SplitAll(tail, sep)
  {
    var s := head + [sep] + tail;
    if |head| == 0 {
      assert s == [sep] + tail;
      assert s[1..] == tail;
    } else {
      assert s[1..] == head[1..] + [sep] + tail;
      SplitAllCons(head[1..], sep, tail);
      assert head == [head[0]] + head[1..];
    }
  }

  /** Splitting everywhere inverts Join, for parts free of the separator. */
  lemma {:induction false} SplitAllJoin(parts: seq<string>, sep: char)
    requires |parts| >= 1
    requires forall k :: 0 <= k < |parts| ==> sep !in parts[k]
    ensures SplitAll(Join(parts, sep), sep) == parts
  {
    if |parts| == 1 {
      SplitAllNoSep(parts[0], sep);
    } else {
      SplitAllJoin(parts[1..], sep);
      SplitAllCons(parts[0], sep, Join(parts[1..], sep));
      assert parts == [parts[0]] + parts[1..];
    }
  }

  /** Two or more parts joined hold the separator. */
  lemma {:induction false} JoinHasSep(parts: seq<string>, sep: char)
    requires |parts| >= 2
    ensures sep in Join(parts, sep)
  {
    assert Join(parts, sep)[|parts[0]|] == sep;
  }

  // ---------------------------------------------------------------------------
  // split(sep) with limit 0

  /** The result of split(sep) is the every-occurrence split with its trailing
      empty parts removed, unless the separator does not occur at all. */
  lemma SplitCharacterization(s: string, sep: char)
    ensures var r := Split(s, sep);
      (sep !in s ==> r == [s]) &&
      (sep in s ==>
        var all := SplitAll(s, sep);
        |r| <= |all| && r == all[..|r|] &&
        (r == [] || r[|r| - 1] != "") &&
        (forall k :: |r| <= k < |all| ==> all[k] == "") &&
        (forall k :: 0 <= k < |r| ==> sep !in r[k]) &&
        Join(all, sep) == s)
  {
    if sep in s {
      SplitAllNoSepInParts(s, sep);
      JoinSplitAll(s, sep);
    }
  }

  /** Round trip: non-empty parts free of the separator, joined and split
      again, come back unchanged (the shape of a list of parent hashes). */
  lemma SplitJoin(parts: seq<string>, sep: char)
    requires |parts| >= 1
    requires forall k :: 0 <= k < |parts| ==> sep !in parts[k] && parts[k] != ""
    ensures Split(Join(parts, sep), sep) == parts
  {
    if |parts| == 1 {
      assert Join(parts, sep) == parts[0];
    } else {
      JoinHasSep(parts, sep);
      SplitAllJoin(parts, sep);
    }
  }

  /** split(" ") of an empty string is one empty part: the input has no
      separator, so it comes back whole. */
  lemma SplitEmpty()
    ensures Split("", ' ') == [""]
  {
  }

  /** split(" ") of a lone space is no part at all: both parts around it are
      empty and trailing. */
  lemma SplitLoneSeparator()
    ensures Split(" ", ' ') == []
  {
    assert ' ' in " ";
    assert SplitAll(" ", ' ') == ["", ""] by {
      assert " "[1..] == "";
    }
    assert DropTrailingEmpty(["", ""]) == DropTrailingEmpty([""]) by {
      assert ["", ""][..1] == [""];
    }
    assert DropTrailingEmpty([""]) == DropTrailingEmpty([]) by {
      assert [""][..0] == [];
    }
  }

  /** Two parents separated by one space. */
  lemma SplitTwoParts()
    ensures Split("p1 p2", ' ') == ["p1", "p2"]
  {
    var parts := ["p1", "p2"];
    assert Join(parts, ' ') == "p1 p2" by {
      assert parts[1..] == ["p2"];
    }
    SplitJoin(parts, ' ');
  }

  /** A doubled space leaves an empty part between its neighbours. */
  lemma SplitDoubledSeparator()
    ensures Split("p1  p2", ' ') == ["p1", "", "p2"]
  {
    var parts := ["p1", "", "p2"];
    assert Join(parts, ' ') == "p1  p2" by {
      assert parts[1..] == ["", "p2"];
      assert parts[1..][1..] == ["p2"];
    }
    SplitAllJoin(parts, ' ');
    assert "p1  p2"[2] == ' ';
  }

  /** A trailing space is dropped with the empty part after it. */
  lemma SplitTrailingSeparator()
    ensures Split("p1 ", ' ') == ["p1"]
  {
    var parts := ["p1", ""];
    assert Join(parts, ' ') == "p1 " by {
      assert parts[1..] == [""];
    }
    SplitAllJoin(parts, ' ');
    assert "p1 "[2] == ' ';
    assert DropTrailingEmpty(parts) == ["p1"] by {
      assert parts[..1] == ["p1"];
    }
  }
}
