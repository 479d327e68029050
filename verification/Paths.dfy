/** Path names (ex4/xv6/fs.c): skipelem, against the list of a path's elements. A path ends where its
    string does, as a C string ends at its NUL. */
module Paths {
  const DIRSIZ: nat := 14

  /** Names are cut to DIRSIZ characters (fs.c:637-643). */
  function Cut(name: string): (r: string)
    ensures r <= name && |r| == if |name| > 14 then 14 else |name|
  {
    if |name| > DIRSIZ then name[..DIRSIZ] else name
  }

  /** The characters before the first slash. */
  function NameLen(path: string): (n: nat)
    ensures n <= |path| && (n < |path| ==> path[n] == '/')
    ensures forall i :: 0 <= i < n ==> path[i] != '/'
  {
    if path == "" || path[0] == '/' then 0 else 1 + NameLen(path[1..])
  }

  /** The names that slashes separate, however many slashes there are. */
  function Elements(path: string): seq<string> {
    if path == "" then []
    else if path[0] == '/' then Elements(path[1..])
    else [Cut(path[..NameLen(path)])] + Elements(path[NameLen(path)..])
  }

  predicate Plain(name: string) {
    name != "" && '/' !in name
  }

  lemma {:induction false} NameLenIs(w: string, rest: string)
    requires '/' !in w && (rest == "" || rest[0] == '/')
    ensures NameLen(w + rest) == |w|
  {
    if w == "" {
      assert w + rest == rest;
    } else {
      assert (w + rest)[1..] == w[1..] + rest;
      NameLenIs(w[1..], rest);
    }
  }

  /** A name alone is one element, and slashes separate: this is all there is to a path. */
  lemma OneName(w: string)
    requires Plain(w)
    ensures Elements(w) == [Cut(w)]
  {
    NameLenIs(w, "");
    assert w + "" == w && w[..|w|] == w;
  }

  lemma {:induction false} SlashSeparates(a: string, b: string)
    ensures Elements(a + "/" + b) == Elements(a) + Elements(b)
    decreases |a|
  {
    var all := a + "/" + b;
    if a == "" {
      assert all[1..] == b;
    } else if a[0] == '/' {
      assert all[1..] == a[1..] + "/" + b;
      SlashSeparates(a[1..], b);
    } else {
      var n := NameLen(a);
      var w, rest := a[..n], a[n..] + "/" + b;
      assert all == w + rest;
      NameLenIs(w, rest);
      assert all[..n] == w && all[n..] == rest;
      SlashSeparates(a[n..], b);
      assert Elements(all) == [Cut(w)] + Elements(rest);
    }
  }

  /** The path that goes through names, with a slash before each. */
  function Joined(names: seq<string>): string {
    if names == [] then "" else "/" + names[0] + Joined(names[1..])
  }

  /** Splitting undoes joining, but for names that are too long. */
  lemma {:induction false} ElementsOfJoined(names: seq<string>)
    requires forall i :: 0 <= i < |names| ==> Plain(names[i])
    ensures Elements(Joined(names)) == seq(|names|, i requires 0 <= i < |names| => Cut(names[i]))
  {
    if names != [] {
      var w, more := names[0], names[1..];
      ElementsOfJoined(more);
      OneName(w);
      if more == [] {
        assert ("/" + w + "")[1..] == w;
      } else {
        var tail := "/" + more[0] + Joined(more[1..]);
        assert Joined(names) == "/" + w + tail;
        assert ("/" + w + tail)[1..] == w + "/" + tail[1..];
        SlashSeparates(w, tail[1..]);
        assert Elements(tail) == Elements(tail[1..]);
      }
    }
  }

  /** The next element of the path from i on, and where the one after it starts (fs.c:625-647). */
  method SkipElem(path: string, i: nat) returns (found: bool, next: nat, name: string)
    requires i <= |path|
    ensures found <==> Elements(path[i..]) != []
    ensures found ==> i < next <= |path| && Elements(path[i..]) == [name] + Elements(path[next..])
    ensures found ==> (next == |path| <==> Elements(path[next..]) == [])
  {
    hide Cut, Elements, NameLen;
    next := SkipSlashes(path, i);
    if next == |path| {
      return false, next, "";
    }
    FirstName(path, next);
    var s := next;
    next := SkipName(path, s);
    name := CopyName(path[s..next]);
    next := SkipSlashes(path, next);
    found := true;
  }

  lemma FirstName(path: string, s: nat)
    requires s < |path| && path[s] != '/'
    ensures var e := s + NameLen(path[s..]);
            s < e <= |path| && Elements(path[s..]) == [Cut(path[s..e])] + Elements(path[e..])
  {
    var n := NameLen(path[s..]);
    assert path[s..][..n] == path[s..s + n] && path[s..][n..] == path[s + n..];
  }

  method SkipName(path: string, s: nat) returns (next: nat)
    requires s <= |path|
    ensures next == s + NameLen(path[s..])
  {
    next := s;
    while next < |path| && path[next] != '/'
      invariant s <= next <= |path| && s + NameLen(path[s..]) == next + NameLen(path[next..])
    {
      assert path[next..][1..] == path[next + 1..];
      next := next + 1;
    }
  }

  method SkipSlashes(path: string, i: nat) returns (next: nat)
    requires i <= |path|
    ensures i <= next <= |path| && Elements(path[next..]) == Elements(path[i..])
    ensures next == |path| <==> Elements(path[i..]) == []
    ensures next < |path| ==> path[next] != '/'
  {
    next := i;
    while next < |path| && path[next] == '/'
      invariant i <= next <= |path| && Elements(path[next..]) == Elements(path[i..])
    {
      assert path[next..][1..] == path[next + 1..];
      next := next + 1;
    }
  }

  /** As much of a name as fits (fs.c:637-643). */
  method CopyName(s: string) returns (name: string)
    ensures name == Cut(s)
  {
    if |s| >= DIRSIZ {
      name := s[..DIRSIZ];
    } else {
      name := s;
    }
  }
}
