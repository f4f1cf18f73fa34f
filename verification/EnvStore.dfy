// env.c's table of 64 rows of 96 characters, updated in place, and its two sector loops.
module EnvStores {
  import opened CStrings
  import opened Env
  import opened EnvSectors

  // ---- name_match ----

  // The text of a buffer reaches past i when its first i + 1 characters hold no NUL.
  lemma TextAt(s: string, i: nat)
    requires i < |s| && '\0' in s && '\0' !in s[..i]
    ensures i <= |CStr(s)| && CStr(s)[..i] == s[..i]
    ensures s[i] == '\0' <==> i == |CStr(s)|
    ensures s[i] != '\0' ==> i + 1 < |s| && '\0' !in s[..i + 1] && CStr(s)[..i + 1] == s[..i + 1]
  {
    CStrAt(s, i);
    assert s[..i + 1] == s[..i] + [s[i]];
    if s[i] != '\0' { Further(s, i + 1); }
  }

  // Whether the entry in row kv has exactly the given name.
  method NameMatch(kv: string, name: string) returns (m: bool)
    requires '\0' in kv && '\0' in name && KvOk(CStr(kv))
    ensures m <==> Name(CStr(kv)) == CStr(name)
  {
    ghost var e, t := CStr(kv), CStr(name);
    ghost var q := EqAt(e);
    var i := 0;
    while kv[i] != '\0' && kv[i] != '='
      invariant 0 <= i <= q && i < |kv| && i < |name|
      invariant kv[..i] == name[..i] && '\0' !in kv[..i]
      decreases q - i
    {
      TextAt(kv, i);
      TextAt(name, i);
      assert e[i] == kv[i];
      if kv[i] != name[i] {
        assert e[..q][i] == e[i] && (i < |t| ==> t[i] == name[i]);
        return false;
      }
      assert kv[..i + 1] == kv[..i] + [kv[i]] && name[..i + 1] == name[..i] + [name[i]];
      i := i + 1;
    }
    TextAt(kv, i);
    assert e[i] == kv[i] && i == q;
    assert e[..q] == kv[..q] == name[..q];
    i := 0;
    while name[i] != '\0'
      invariant 0 <= i <= q && i < |name| && i <= |t| && '\0' !in name[..i]
      decreases |name| - i
    {
      TextAt(name, i);
      if name[i] == '=' {
        assert t[i] == '=';
        return false;
      }
      if kv[i] == '=' { return false; }
      i := i + 1;
    }
    TextAt(name, i);
    var nlen := 0;
    while name[nlen] != '\0'
      invariant 0 <= nlen <= i && '\0' !in name[..nlen]
      decreases i - nlen
    {
      TextAt(name, nlen);
      nlen := nlen + 1;
    }
    m := kv[nlen] == '=';
  }

  class EnvStore {
    const store: array2<char>  // 64 rows of 96 characters
    var count: nat
    var initialized: bool

    ghost predicate Shaped()
      reads this
    {
      store.Length0 == ENV_MAX && store.Length1 == KV_MAX && count <= ENV_MAX
    }

    function Row(i: nat): (r: string)
      requires store.Length0 == ENV_MAX && store.Length1 == KV_MAX && i < ENV_MAX
      reads store
      ensures |r| == KV_MAX && forall j :: 0 <= j < KV_MAX ==> r[j] == store[i, j]
    {
      seq(KV_MAX, j requires 0 <= j < KV_MAX && store.Length0 == ENV_MAX
        && store.Length1 == KV_MAX reads store => store[i, j])
    }

    // The texts in the rows in use.
    ghost function Abs(): (es: seq<string>)
      requires Shaped()
      reads this, store
      ensures |es| == count && forall i :: 0 <= i < count ==> es[i] == CStr(Row(i))
    {
      seq(count, i requires 0 <= i < count && Shaped() reads this, store => CStr(Row(i)))
    }

    ghost predicate Valid()
      reads this, store
      ensures Valid() ==> Shaped()
    {
      Shaped() && EnvOk(Abs()) && forall i :: 0 <= i < count ==> '\0' in Row(i)
    }

    constructor ()
      ensures Valid() && Abs() == [] && !initialized && fresh(store)
    {
      store := new char[ENV_MAX, KV_MAX]((i, j) => '\0');
      count, initialized := 0, false;
    }

    lemma AbsIs(es: seq<string>)
      requires store.Length0 == ENV_MAX && store.Length1 == KV_MAX && EnvOk(es) && count == |es| <= ENV_MAX
      requires forall i :: 0 <= i < count ==> '\0' in Row(i) && CStr(Row(i)) == es[i]
      ensures Valid() && Abs() == es
    {
    }

    lemma RowOk(i: nat)
      requires Valid() && i < count
      ensures store.Length0 == ENV_MAX && store.Length1 == KV_MAX && Shaped() && i < ENV_MAX && '\0' in Row(i)
      ensures KvOk(CStr(Row(i)))
      ensures i < |Abs()| && CStr(Row(i)) == Abs()[i]
    {
    }

    lemma ValidIs()
      requires Valid()
      ensures store.Length0 == ENV_MAX && store.Length1 == KV_MAX && Shaped() && EnvOk(Abs())
      ensures |Abs()| == count <= ENV_MAX
      ensures forall i :: 0 <= i < count ==> '\0' in Row(i) && CStr(Row(i)) == Abs()[i]
    {
    }

    lemma FoundAt(name: string, i: nat)
      requires Valid() && i <= count && forall k :: 0 <= k < i ==> Name(Abs()[k]) != name
      ensures i < count ==> |Abs()| == count && (Name(Abs()[i]) == name ==> Find(Abs(), name) == i)
      ensures i == count ==> Find(Abs(), name) == -1
    {
    }

    // The row whose entry has this name, -1 for none.
    method FindRow(name: string) returns (f: int)
      requires Valid() && '\0' in name
      ensures f == Find(Abs(), CStr(name)) && -1 <= f < count
    {
      hide *;
      ValidIs();
      var i := 0;
      while i < count
        invariant 0 <= i <= count
        invariant forall k :: 0 <= k < i ==> Name(Abs()[k]) != CStr(name)
      {
        RowOk(i);
        var m := NameMatch(Row(i), name);
        FoundAt(CStr(name), i);
        if m { return i; }
        i := i + 1;
      }
      FoundAt(CStr(name), i);
      f := -1;
    }

    // env_get: the text behind the '=', none for no such name.
    method EnvGet(name: string) returns (found: bool, value: string)
      requires Valid() && '\0' in name
      ensures found <==> CStr(name) in Bindings(Abs())
      ensures found ==> value == Bindings(Abs())[CStr(name)]
    {
      hide *;
      ValidIs();
      BoundIff(Abs(), CStr(name));
      var i := FindRow(name);
      if i < 0 { return false, ""; }
      RowOk(i);
      found := true;
      value := ValueText(Row(i));
    }

    // Row i becomes the text kv cut to 95 characters, padded with NULs; the other rows stay.
    method CopyKv(i: nat, kv: string)
      requires store.Length0 == ENV_MAX && store.Length1 == KV_MAX && i < ENV_MAX && '\0' in kv
      modifies store
      ensures '\0' in Row(i) && CStr(Row(i)) == CutKv(CStr(kv))
      ensures forall k :: 0 <= k < ENV_MAX && k != i ==> Row(k) == old(Row(k))
    {
      var j := 0;
      while j < KV_MAX - 1 && kv[j] != '\0'
        invariant 0 <= j <= KV_MAX - 1 && j < |kv| && '\0' !in kv[..j]
        invariant forall c :: 0 <= c < j ==> store[i, c] == kv[c]
        invariant forall k, c :: 0 <= k < ENV_MAX && k != i && 0 <= c < KV_MAX ==> store[k, c] == old(store[k, c])
        decreases KV_MAX - j
      {
        store[i, j] := kv[j];
        TextAt(kv, j);
        j := j + 1;
      }
      ghost var n := j;
      while j < KV_MAX
        invariant n <= j <= KV_MAX
        invariant forall c :: 0 <= c < j ==> store[i, c] == if c < n then kv[c] else '\0'
        invariant forall k, c :: 0 <= k < ENV_MAX && k != i && 0 <= c < KV_MAX ==> store[k, c] == old(store[k, c])
      {
        store[i, j] := '\0';
        j := j + 1;
      }
      TextAt(kv, n);
      assert Row(i)[..n] == kv[..n] && Row(i)[n] == '\0';
      TextAt(Row(i), n);
      forall k | 0 <= k < ENV_MAX && k != i
        ensures Row(k) == old(Row(k))
      {
      }
    }

    // kmemcpy of row from over row to.
    method CopyRow(to: nat, from: nat)
      requires store.Length0 == ENV_MAX && store.Length1 == KV_MAX && to < ENV_MAX && from < ENV_MAX && to != from
      modifies store
      ensures Row(to) == old(Row(from))
      ensures forall k :: 0 <= k < ENV_MAX && k != to ==> Row(k) == old(Row(k))
    {
      var j := 0;
      while j < KV_MAX
        invariant 0 <= j <= KV_MAX
        invariant forall c :: 0 <= c < j ==> store[to, c] == old(store[from, c])
        invariant forall k, c :: 0 <= k < ENV_MAX && k != to && 0 <= c < KV_MAX ==> store[k, c] == old(store[k, c])
      {
        store[to, j] := store[from, j];
        j := j + 1;
      }
      forall k | 0 <= k < ENV_MAX && k != to
        ensures Row(k) == old(Row(k))
      {
      }
    }

    // env_set
    method EnvSet(kv: string) returns (r: int)
      requires Valid() && '\0' in kv
      modifies this`count, store
      ensures Valid() && (Abs(), r) == Set(old(Abs()), CStr(kv))
    {
      hide *;
      ValidIs();
      ghost var es := Abs();
      SetCases(es, CStr(kv));
      var eq, bad := ScanEq(kv);
      if bad { return -2; }
      if eq <= 0 { return -3; }
      if eq >= 64 { return -4; }
      var name := kv[..eq] + "\0";
      CStrTerminated(kv[..eq], []);
      assert name + [] == name && name[eq] == '\0';
      var f := FindRow(name);
      if f >= 0 {
        CopyKv(f, kv);
        AbsIs(es[f := CutKv(CStr(kv))]);
        return 0;
      }
      if count >= ENV_MAX { return -5; }
      CopyKv(count, kv);
      count := count + 1;
      AbsIs(es + [CutKv(CStr(kv))]);
      r := 0;
    }

    // env_unset
    method EnvUnset(name: string) returns (r: int)
      requires Valid() && '\0' in name
      modifies this`count, store
      ensures Valid() && (Abs(), r) == Unset(old(Abs()), CStr(name))
    {
      hide *;
      ValidIs();
      ghost var es := Abs();
      UnsetCases(es, CStr(name));
      var i := FindRow(name);
      if i < 0 { return -1; }
      count := count - 1;
      if i != count { CopyRow(i, count); }
      AbsIs(es[i := es[|es| - 1]][..|es| - 1]);
      r := 0;
    }

    // env_save up to the disk write: the sector it hands to the driver.
    method EnvSave() returns (image: string)
      requires Valid()
      ensures image == Sector(Abs())
    {
      hide *;
      Sizes();
      ValidIs();
      ghost var es := Abs();
      var sector := new char[SECTOR](_ => '\0');
      sector[0], sector[1], sector[2], sector[3] := 'E', 'N', 'V', '0';
      sector[4] := count as char;
      SaveStart(es, sector[..]);
      var i, off := 0, 5;
      while i < count && off < SECTOR
        invariant 0 <= i <= count
        invariant Saving(es, sector[..], i, off)
        decreases count - i
      {
        RowOk(i);
        var kv := Row(i);
        var len := TextLength(kv);
        SaveStep(es, sector[..], i, off);
        if len > 250 { len := 250; }
        if off + 1 + len >= SECTOR { break; }
        PutText(sector, off, kv[..len]);
        off := off + 1 + len;
        i := i + 1;
      }
      SaveEnd(es, sector[..], i, off);
      image := sector[..];
    }

    // env_init, the sector read into disk when ok.
    method EnvInit(ok: bool, disk: string)
      requires Valid() && |disk| == SECTOR
      modifies this, store
      ensures Valid() && initialized
      ensures old(initialized) ==> Abs() == old(Abs())
      ensures !old(initialized) && old(Abs()) == [] ==> Abs() == if ok then Load(disk) else DEFAULT
    {
      hide *;
      if initialized { return; }
      Sizes();
      ValidIs();
      ghost var es := Abs();
      initialized := true;
      AbsIs(es);
      CStrTerminated("PATH=/bin", []);
      assert "PATH=/bin" + "\0" + [] == "PATH=/bin\0";
      assert "PATH=/bin\0"[9] == '\0';
      DefaultSet();
      var r := EnvSet("PATH=/bin\0");
      LoadIs(disk);
      if !ok || disk[0] != 'E' || disk[1] != 'N' || disk[2] != 'V' || disk[3] != '0' { return; }
      var c := disk[4] as int;
      var i, off := 0, 5;
      ghost var goal := Decode(disk, Abs(), 5, 0);
      while i < c && i < ENV_MAX
        invariant Valid() && initialized && 0 <= i <= ENV_MAX && 5 <= off
        invariant Decode(disk, Abs(), off, i) == goal
        decreases ENV_MAX - i
      {
        DecodeStep(disk, Abs(), off, i);
        if off >= SECTOR { break; }
        var len := disk[off] as int;
        off := off + 1;
        if len <= 0 || len >= KV_MAX { break; }
        if off + len > SECTOR { break; }
        var tmp := disk[off..off + len] + "\0";
        assert tmp[len] == '\0';
        CStrEnd(disk[off..off + len]);
        r := EnvSet(tmp);
        off := off + len;
        i := i + 1;
      }
      DecodeStep(disk, Abs(), off, i);
    }
  }

  lemma SetCases(es: seq<string>, t: Text)
    requires EnvOk(es)
    ensures EnvOk(Set(es, t).0)
    ensures var eq, f, cut := EqAt(t), Find(es, Name(t)), CutKv(t);
            Set(es, t) ==
            if eq >= KV_MAX - 1 && |t| >= KV_MAX - 1 then (es, -2)
            else if eq == 0 || eq == |t| then (es, -3)
            else if eq >= 64 then (es, -4)
            else if f >= 0 then (es[f := cut], 0)
            else if |es| >= ENV_MAX then (es, -5)
            else (es + [cut], 0)
  {
    SetRefines(es, t);
  }

  lemma UnsetCases(es: seq<string>, name: string)
    requires EnvOk(es)
    ensures EnvOk(Unset(es, name).0)
    ensures var f := Find(es, name);
            Unset(es, name) == if f < 0 then (es, -1) else (es[f := es[|es| - 1]][..|es| - 1], 0)
  {
    UnsetRefines(es, name);
  }

  // The text behind the first '=' of an entry.
  method ValueText(kv: string) returns (value: string)
    requires '\0' in kv && KvOk(CStr(kv))
    ensures value == Value(CStr(kv))
  {
    var k := 0;
    while kv[k] != '\0' && kv[k] != '='
      invariant 0 <= k <= EqAt(CStr(kv)) && '\0' !in kv[..k] && k < |kv|
      decreases |kv| - k
    {
      TextAt(kv, k);
      assert CStr(kv)[k] == kv[k];
      k := k + 1;
    }
    TextAt(kv, k);
    assert CStr(kv)[k] == kv[k] && k == EqAt(CStr(kv));
    value := CStr(kv[k + 1..]);
    TailText(kv, k + 1);
  }

  // The text behind position k of a buffer.
  lemma TailText(s: string, k: nat)
    requires '\0' in s && k <= |CStr(s)|
    ensures CStr(s[k..]) == CStr(s)[k..]
  {
    var t := CStr(s);
    assert s[k..][..|t| - k] == t[k..];
    assert t == s[..|t|] && s[|t|] == '\0';
    assert forall x :: x in t[k..] ==> x in t;
    CStrAt(s[k..], |t| - k);
    assert CStr(s[k..]) == s[k..][..|t| - k];
  }

  // Passing position i of the search for the first '='.
  lemma EqStep(t: string, i: nat)
    requires i < |t| && i <= EqAt(t)
    ensures if t[i] == '=' then EqAt(t) == i && Name(t) == t[..i] else i + 1 <= EqAt(t)
  {
    assert i < EqAt(t) ==> t[..EqAt(t)][i] == t[i];
  }

  // env_set's scan for the first '='; -1 for none, bad when 95 characters pass without one.
  method ScanEq(kv: string) returns (eq: int, bad: bool)
    requires '\0' in kv
    ensures bad <==> EqAt(CStr(kv)) >= KV_MAX - 1 && |CStr(kv)| >= KV_MAX - 1
    ensures !bad ==> eq == if EqAt(CStr(kv)) < |CStr(kv)| then EqAt(CStr(kv)) else -1
    ensures -1 <= eq < |kv| && (eq >= 0 ==> '\0' !in kv[..eq] && kv[..eq] == Name(CStr(kv)))
  {
    hide *;
    Sizes();
    ghost var t := CStr(kv);
    var i := 0;
    eq, bad := -1, false;
    while kv[i] != '\0'
      invariant 0 <= i <= EqAt(t) && i < |kv| && '\0' !in kv[..i] && i <= KV_MAX - 2
      decreases |kv| - i
    {
      TextAt(kv, i);
      assert t[i] == t[..i + 1][i] == kv[i];
      EqStep(t, i);
      if kv[i] == '=' { return i, false; }
      if i >= KV_MAX - 2 { return -1, true; }
      i := i + 1;
    }
    TextAt(kv, i);
  }

  // ---- The sector loops ----

  // The first i entries are written, off bytes in all.
  ghost predicate Saving(es: seq<string>, s: string, i: nat, off: nat) {
    && EntriesOk(es) && i <= |es| && |s| == SECTOR && 5 <= off == Size(es[..i]) < SECTOR
    && StoredFrom(es, i) == StoredCount(es)
    && s == "ENV0" + [|es| as char] + Packed(es[..i]) + Fill(SECTOR - off)
  }

  lemma Sizes()
    ensures ENV_MAX == 64 && KV_MAX == 96 && SECTOR == 512
  {
  }

  lemma SaveStart(es: seq<string>, s: string)
    requires EntriesOk(es) && |s| == SECTOR
    requires s[0] == 'E' && s[1] == 'N' && s[2] == 'V' && s[3] == '0' && s[4] == |es| as char
    requires forall j :: 5 <= j < SECTOR ==> s[j] == '\0'
    ensures Saving(es, s, 0, 5)
  {
    assert es[..0] == [];
    assert s == "ENV0" + [|es| as char] + Packed(es[..0]) + Fill(SECTOR - 5);
  }

  lemma SaveStep(es: seq<string>, s: string, i: nat, off: nat)
    requires Saving(es, s, i, off) && i < |es|
    ensures |es[i]| < KV_MAX
    ensures 5 <= off
    ensures off + 1 + |es[i]| >= SECTOR ==> StoredCount(es) == i
    ensures off + 1 + |es[i]| < SECTOR ==>
              |es[i]| + off + 1 <= |s|
                && Saving(es, s[..off] + Pack(es[i]) + s[off + 1 + |es[i]|..], i + 1, off + 1 + |es[i]|)
  {
    if off + 1 + |es[i]| < SECTOR {
      SizeSnoc(es, i);
      PackedSize(es[..i]);
      PackedSnoc(es, i);
      hide Packed, Size, StoredCount, EntriesOk, Pack, KvOk;
      FillIn("ENV0" + [|es| as char] + Packed(es[..i]), Pack(es[i]), s);
    }
  }

  lemma PackedSnoc(es: seq<string>, i: nat)
    requires EntriesOk(es) && i < |es|
    ensures Packed(es[..i + 1]) == Packed(es[..i]) + Pack(es[i]) && |Pack(es[i])| == 1 + |es[i]|
  {
    assert es[..i + 1][..i] == es[..i] && es[..i + 1][i] == es[i];
  }

  lemma FillIn(h: string, p: string, s: string)
    requires |h| + |p| <= |s| && s == h + Fill(|s| - |h|)
    ensures s[..|h|] + p + s[|h| + |p|..] == h + p + Fill(|s| - |h| - |p|)
  {
  }

  lemma SaveEnd(es: seq<string>, s: string, i: nat, off: nat)
    requires Saving(es, s, i, off) && (i == |es| || off >= SECTOR || i == StoredCount(es))
    ensures s == Sector(es)
  {
  }

  // Length byte and text at off.
  method PutText(sector: array<char>, off: nat, text: string)
    requires |text| < KV_MAX && off + 1 + |text| <= sector.Length
    modifies sector
    ensures sector[..] == old(sector[..off]) + Pack(text) + old(sector[off + 1 + |text|..])
  {
    sector[off] := |text| as char;
    var j := 0;
    while j < |text|
      invariant 0 <= j <= |text|
      invariant forall k :: 0 <= k < sector.Length ==>
                  sector[k] == if k == off then |text| as char
                               else if off < k <= off + j then text[k - off - 1] else old(sector[k])
    {
      sector[off + 1 + j] := text[j];
      j := j + 1;
    }
  }

  // The length of an entry's text, at most 95.
  method TextLength(kv: string) returns (len: nat)
    requires '\0' in kv && |CStr(kv)| < KV_MAX
    ensures len == |CStr(kv)| && len <= |kv| && kv[..len] == CStr(kv)
  {
    len := 0;
    while kv[len] != '\0' && len < KV_MAX - 1
      invariant 0 <= len <= |CStr(kv)| && len < |kv| && '\0' !in kv[..len]
      decreases KV_MAX - len
    {
      TextAt(kv, len);
      len := len + 1;
    }
    TextAt(kv, len);
  }

  lemma DefaultSet()
    ensures Set([], "PATH=/bin").0 == DEFAULT
  {
    EqAtIs("PATH=/bin", 4);
    assert "PATH=/bin"[..9] == "PATH=/bin";
  }

  lemma LoadIs(s: string)
    requires |s| == SECTOR
    ensures Load(s) ==
            if s[0] == 'E' && s[1] == 'N' && s[2] == 'V' && s[3] == '0' then Decode(s, DEFAULT, 5, 0) else DEFAULT
  {
    assert s[..4] == [s[0], s[1], s[2], s[3]];
  }

  lemma DecodeStep(s: string, es: seq<string>, off: nat, i: nat)
    requires |s| == SECTOR
    ensures Decode(s, es, off, i) ==
            if i >= s[4] as int || i >= ENV_MAX || off >= SECTOR then es
            else
              var len := s[off] as int;
              if len <= 0 || len >= KV_MAX || off + 1 + len > SECTOR then es
              else Decode(s, Set(es, CStr(s[off + 1..off + 1 + len])).0, off + 1 + len, i + 1)
  {
  }

  lemma CStrEnd(t: string)
    ensures CStr(t + "\0") == CStr(t)
  {
    var c := CStr(t);
    assert forall x :: x in c ==> x != '\0';
    assert (t + "\0")[..|c|] == c;
    CStrAt(t + "\0", |c|);
  }
}
