/** How snd_config_update_r decides whether the files changed (conf.c:4540-4608). */
module UpdateDetection {
  import opened Numbers

  // ----- the list of file names

  predicate IsDelimiter(c: char) {
    c == ':' || c == ' '
  }

  /** strcspn(s, ": ") */
  function Span(s: string): (l: nat)
    ensures l <= |s|
    ensures l < |s| ==> IsDelimiter(s[l])
  {
    if s == [] || IsDelimiter(s[0]) then 0 else 1 + Span(s[1..])
  }

  /** The names up to the end or the first empty one. */
  function Names(s: string): seq<string>
    decreases |s|
  {
    var l := Span(s);
    if l == 0 then []
    else if l == |s| then [s]
    else [s[..l]] + Names(s[l + 1..])
  }

  /** The first pass only counts. */
  method CountNames(configs: string) returns (k: nat)
    ensures k == |Names(configs)|
  {
    k := 0;
    var c := configs;
    while Span(c) > 0
      invariant |Names(configs)| == k + |Names(c)|
      decreases |c|
    {
      var l := Span(c);
      k := k + 1;
      if l == |c| {
        return;
      }
      c := c[l + 1..];
    }
  }

  predicate IsName(name: string) {
    name != [] && forall i :: 0 <= i < |name| ==> !IsDelimiter(name[i])
  }

  /** A list of file names as it is written. */
  function Written(names: seq<string>, delimiter: char): string {
    if names == [] then []
    else if |names| == 1 then names[0]
    else names[0] + [delimiter] + Written(names[1..], delimiter)
  }

  lemma {:induction false} SpanOfName(name: string, tail: string)
    requires forall i :: 0 <= i < |name| ==> !IsDelimiter(name[i])
    requires tail == [] || IsDelimiter(tail[0])
    ensures Span(name + tail) == |name|
  {
    if name == [] {
      assert name + tail == tail;
    } else {
      assert (name + tail)[1..] == name[1..] + tail;
      SpanOfName(name[1..], tail);
    }
  }

  /** Splitting undoes writing. */
  lemma {:induction false} NamesOfWritten(names: seq<string>, delimiter: char)
    requires IsDelimiter(delimiter) && forall i :: 0 <= i < |names| ==> IsName(names[i])
    ensures Names(Written(names, delimiter)) == names
  {
    if |names| == 1 {
      SpanOfName(names[0], []);
      assert names[0] + [] == names[0];
    } else if names != [] {
      var rest := Written(names[1..], delimiter);
      SpanOfName(names[0], [delimiter] + rest);
      var text := names[0] + [delimiter] + rest;
      assert text == names[0] + ([delimiter] + rest);
      assert text[..|names[0]|] == names[0] && text[|names[0]| + 1..] == rest;
      NamesOfWritten(names[1..], delimiter);
    }
  }

  /** Every name that is split off is one, and the names end where an empty one begins. */
  lemma {:induction false} NamesAreNames(s: string)
    ensures forall i :: 0 <= i < |Names(s)| ==> IsName(Names(s)[i])
    decreases |s|
  {
    SpanFree(s);
    var l := Span(s);
    if 0 < l < |s| {
      NamesAreNames(s[l + 1..]);
    }
  }

  lemma {:induction false} SpanFree(s: string)
    ensures forall i :: 0 <= i < Span(s) ==> !IsDelimiter(s[i])
  {
    if s != [] && !IsDelimiter(s[0]) {
      SpanFree(s[1..]);
      assert forall i :: 0 < i < Span(s) ==> s[i] == s[1..][i - 1];
    }
  }

  /** snd_user_file, which puts the home directory in front of some names. */
  type UserFile = string -> string

  /** A file with the signature that tells whether it changed. */
  datatype Signature = Signature(dev: int, ino: int, mtime: int)

  datatype FileInfo = FileInfo(name: string, sig: Signature)

  const NoSignature := Signature(0, 0, 0)

  lemma NamesStep(c: string)
    requires Span(c) > 0
    ensures Names(c) == [c[..Span(c)]] + if Span(c) == |c| then [] else Names(c[Span(c) + 1..])
  {
    assert c[..|c|] == c;
  }

  lemma NoNames(c: string)
    requires Span(c) == 0
    ensures Names(c) == []
  {
  }

  /** The second pass writes the names into the array that the first pass sized. */
  method SplitNames(configs: string, user: UserFile) returns (finfo: array<FileInfo>)
    ensures fresh(finfo) && finfo.Length == |Names(configs)|
    ensures forall i :: 0 <= i < finfo.Length ==> finfo[i].name == user(Names(configs)[i])
  {
    hide Names;
    var count := CountNames(configs);
    finfo := new FileInfo[count](_ => FileInfo([], NoSignature));
    var k, c := 0, configs;
    while Span(c) > 0
      invariant 0 <= k <= count && k + |Names(c)| == count
      invariant Names(configs)[k..] == Names(c)
      invariant forall i :: 0 <= i < k ==> finfo[i].name == user(Names(configs)[i])
      decreases |c|
    {
      var l := Span(c);
      NamesStep(c);
      assert Names(configs)[k] == Names(c)[0];
      finfo[k] := FileInfo(user(c[..l]), NoSignature);
      k := k + 1;
      if l == |c| {
        return;
      }
      assert Names(c)[1..] == Names(c[l + 1..]);
      c := c[l + 1..];
    }
    NoNames(c);
  }

  // ----- the files that can be accessed

  type Stat = string -> Option<Signature>

  /** The accessible files in their order, each with its signature. */
  function Accessible(files: seq<FileInfo>, stat: Stat): seq<FileInfo> {
    if files == [] then []
    else
      (match stat(files[0].name)
       case None => []
       case Some(g) => [FileInfo(files[0].name, g)]) + Accessible(files[1..], stat)
  }

  lemma {:induction false} AccessibleConcat(a: seq<FileInfo>, b: seq<FileInfo>, stat: Stat)
    ensures Accessible(a + b, stat) == Accessible(a, stat) + Accessible(b, stat)
  {
    if a == [] {
      assert a + b == b;
    } else {
      assert (a + b)[1..] == a[1..] + b;
      AccessibleConcat(a[1..], b, stat);
    }
  }

  /** memmove of everything behind position k one place down. */
  method CloseGap(finfo: array<FileInfo>, k: nat, count: nat)
    requires k < count < finfo.Length
    modifies finfo
    ensures finfo[..k] == old(finfo[..k])
    ensures finfo[k..count] == old(finfo[k + 1..count + 1])
  {
    var i := k;
    while i < count
      invariant k <= i <= count
      invariant finfo[..k] == old(finfo[..k])
      invariant forall j :: k <= j < i ==> finfo[j] == old(finfo[j + 1])
      invariant forall j :: i <= j < finfo.Length ==> finfo[j] == old(finfo[j])
    {
      finfo[i] := finfo[i + 1];
      i := i + 1;
    }
  }

  /** One file: its signature is filled in, or it is dropped and those behind it move up. */
  method Visit(finfo: array<FileInfo>, k: nat, count: nat, stat: Stat) returns (k': nat, count': nat)
    requires k < count <= finfo.Length
    modifies finfo
    ensures k' <= count' <= finfo.Length && count' - k' == count - k - 1
    ensures finfo[..k'] == old(finfo[..k]) + Accessible(old(finfo[k..k + 1]), stat)
    ensures finfo[k'..count'] == old(finfo[k + 1..count])
  {
    ghost var one := finfo[k..k + 1];
    assert one == [finfo[k]] && one[1..] == [];
    match stat(finfo[k].name) {
      case Some(g) =>
        finfo[k] := FileInfo(finfo[k].name, g);
        assert Accessible(one, stat) == [finfo[k]];
        k', count' := k + 1, count;
      case None =>
        assert Accessible(one, stat) == [];
        k', count' := k, count - 1;
        if k < count - 1 {
          CloseGap(finfo, k, count - 1);
        }
    }
  }

  /** The loop that drops inaccessible files in place is a stable filter. */
  method KeepAccessible(finfo: array<FileInfo>, stat: Stat) returns (count: nat)
    modifies finfo
    ensures count <= finfo.Length
    ensures finfo[..count] == Accessible(old(finfo[..]), stat)
  {
    hide Accessible;
    count := finfo.Length;
    var k := 0;
    assert finfo[0..count] == finfo[..];
    while k < count
      invariant 0 <= k <= count <= finfo.Length
      invariant finfo[..k] + Accessible(finfo[k..count], stat) == Accessible(old(finfo[..]), stat)
      decreases count - k
    {
      ghost var head, one, rest := finfo[..k], finfo[k..k + 1], finfo[k + 1..count];
      assert finfo[k..count] == one + rest;
      AccessibleConcat(one, rest, stat);
      k, count := Visit(finfo, k, count, stat);
      assert head + (Accessible(one, stat) + Accessible(rest, stat)) == head + Accessible(one, stat) + Accessible(rest, stat);
    }
    NothingAccessible(stat);
    assert finfo[k..count] == [];
  }

  lemma NothingAccessible(stat: Stat)
    ensures Accessible([], stat) == []
  {
  }

  /** The comparison with the signatures stored at the last reading. */
  method SameAsStored(finfo: array<FileInfo>, count: nat, stored: seq<FileInfo>) returns (same: bool)
    requires count <= finfo.Length
    ensures same <==> finfo[..count] == stored
  {
    if count != |stored| {
      return false;
    }
    var k := 0;
    while k < count
      invariant 0 <= k <= count && finfo[..k] == stored[..k]
    {
      if finfo[k] != stored[k] {
        return false;
      }
      k := k + 1;
    }
    return true;
  }

  /** The files that a list of names stands for now. */
  function CurrentFiles(configs: string, user: UserFile, stat: Stat): seq<FileInfo> {
    Accessible(Unsigned(Names(configs), user), stat)
  }

  function Unsigned(names: seq<string>, user: UserFile): (r: seq<FileInfo>)
    ensures |r| == |names| && forall i :: 0 <= i < |r| ==> r[i] == FileInfo(user(names[i]), NoSignature)
  {
    seq(|names|, i requires 0 <= i < |names| => FileInfo(user(names[i]), NoSignature))
  }

  /** The result depends on names and files only, not on what signatures were there before. */
  lemma {:induction false} NamesDecide(a: seq<FileInfo>, b: seq<FileInfo>, stat: Stat)
    requires |a| == |b| && forall i :: 0 <= i < |a| ==> a[i].name == b[i].name
    ensures Accessible(a, stat) == Accessible(b, stat)
  {
    if a != [] {
      assert forall i :: 0 <= i < |a[1..]| ==> a[1..][i] == a[i + 1] && b[1..][i] == b[i + 1];
      NamesDecide(a[1..], b[1..], stat);
    }
  }

  /** The old tree is kept exactly when the accessible files and their signatures are the stored ones. */
  method Unchanged(configs: string, stored: Option<seq<FileInfo>>, user: UserFile, stat: Stat)
    returns (keep: bool, local: Option<seq<FileInfo>>)
    ensures Names(configs) == [] ==> !keep && local == None
    ensures Names(configs) != [] ==>
              && local == Some(CurrentFiles(configs, user, stat))
              && (keep <==> stored == local)
  {
    var k := CountNames(configs);
    if k == 0 {
      return false, None;
    }
    var finfo := SplitNames(configs, user);
    ghost var all := finfo[..];
    var count := KeepAccessible(finfo, stat);
    NamesDecide(all, Unsigned(Names(configs), user), stat);
    local := Some(finfo[..count]);
    if stored.None? {
      return false, local;
    }
    keep := SameAsStored(finfo, count, stored.value);
  }
}
