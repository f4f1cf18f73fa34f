// The environment's image in one 512-byte sector: "ENV0", the entry count, then each entry as a length byte
// and its text. A character is one byte.
module EnvSectors {
  import opened CStrings
  import opened Env

  // ---- Encoding ----

  function Pack(e: string): (p: string)
    requires |e| < KV_MAX
    ensures |p| == 1 + |e|
  {
    [|e| as char] + e
  }

  function Packed(es: seq<string>): string
    requires forall i :: 0 <= i < |es| ==> |es[i]| < KV_MAX
  {
    if es == [] then "" else Packed(es[..|es| - 1]) + Pack(es[|es| - 1])
  }

  // Bytes used by header and entries.
  function Size(es: seq<string>): nat {
    if es == [] then 5 else Size(es[..|es| - 1]) + 1 + |es[|es| - 1]|
  }

  lemma {:induction false} PackedSize(es: seq<string>)
    requires forall i :: 0 <= i < |es| ==> |es[i]| < KV_MAX
    ensures 5 + |Packed(es)| == Size(es)
  {
    if es != [] { PackedSize(es[..|es| - 1]); }
  }

  // Writing from entry i on stops at the first entry that does not leave a byte free.
  function StoredFrom(es: seq<string>, i: nat): (k: nat)
    requires i <= |es|
    ensures i <= k <= |es|
    decreases |es| - i
  {
    if i == |es| || Size(es[..i]) + 1 + |es[i]| >= SECTOR then i else StoredFrom(es, i + 1)
  }

  function StoredCount(es: seq<string>): (k: nat)
    ensures k <= |es|
  {
    StoredFrom(es, 0)
  }

  lemma SizeSnoc(es: seq<string>, i: nat)
    requires i < |es|
    ensures Size(es[..i + 1]) == Size(es[..i]) + 1 + |es[i]|
  {
    assert es[..i + 1][..i] == es[..i];
  }

  lemma {:induction false} SizeMonotone(es: seq<string>, i: nat, j: nat)
    requires i <= j <= |es|
    ensures Size(es[..i]) <= Size(es[..j])
    decreases j - i
  {
    if i < j {
      SizeSnoc(es, j - 1);
      SizeMonotone(es, i, j - 1);
    }
  }

  lemma {:induction false} StoredFromFits(es: seq<string>, i: nat)
    requires i <= |es| && Size(es[..i]) < SECTOR
    ensures var k := StoredFrom(es, i);
            Size(es[..k]) < SECTOR && (k < |es| ==> Size(es[..k + 1]) >= SECTOR)
    decreases |es| - i
  {
    if i < |es| {
      SizeSnoc(es, i);
      if Size(es[..i]) + 1 + |es[i]| < SECTOR { StoredFromFits(es, i + 1); }
    }
  }

  // The stored prefix is the longest one whose encoding fits the sector.
  lemma StoredLongest(es: seq<string>, k: nat)
    requires k <= |es|
    ensures Size(es[..k]) < SECTOR <==> k <= StoredCount(es)
  {
    assert es[..0] == [];
    StoredFromFits(es, 0);
    var n := StoredCount(es);
    if k <= n { SizeMonotone(es, k, n); } else { SizeMonotone(es, n + 1, k); }
  }

  // env_save
  function Sector(es: seq<string>): (s: string)
    requires EntriesOk(es)
    ensures |s| == SECTOR
  {
    var k := StoredCount(es);
    StoredLongest(es, k);
    PackedSize(es[..k]);
    "ENV0" + [|es| as char] + Packed(es[..k]) + Fill(SECTOR - Size(es[..k]))
  }

  // ---- Decoding ----

  // env_init's loop from byte off with i entries read.
  function Decode(s: string, es: seq<string>, off: nat, i: nat): seq<string>
    requires |s| == SECTOR
    decreases ENV_MAX - i
  {
    if i >= s[4] as int || i >= ENV_MAX || off >= SECTOR then es
    else
      var len := s[off] as int;
      if len <= 0 || len >= KV_MAX || off + 1 + len > SECTOR then es
      else Decode(s, Set(es, CStr(s[off + 1..off + 1 + len])).0, off + 1 + len, i + 1)
  }

  const DEFAULT := ["PATH=/bin"]

  // env_init with the sector read into s.
  function Load(s: string): seq<string>
    requires |s| == SECTOR
  {
    if s[..4] == "ENV0" then Decode(s, DEFAULT, 5, 0) else DEFAULT
  }

  // ---- Any sector ----

  lemma {:induction false} DecodeKeeps(s: string, es: seq<string>, off: nat, i: nat)
    requires |s| == SECTOR && EnvOk(es) && "PATH" in Bindings(es)
    ensures EnvOk(Decode(s, es, off, i)) && "PATH" in Bindings(Decode(s, es, off, i))
    decreases ENV_MAX - i
  {
    hide Bindings, Set, NamesDiffer, KvOk;
    if !(i >= s[4] as int || i >= ENV_MAX || off >= SECTOR) {
      var len := s[off] as int;
      if !(len <= 0 || len >= KV_MAX || off + 1 + len > SECTOR) {
        var kv := CStr(s[off + 1..off + 1 + len]);
        SetRefines(es, kv);
        DecodeKeeps(s, Set(es, kv).0, off + 1 + len, i + 1);
      }
    }
  }

  // Whatever 512 bytes the sector holds, loading it gives a table in order in which PATH is bound; without the
  // mark, or with a count of 0, PATH is all there is.
  lemma LoadAny(s: string)
    requires |s| == 512
    ensures EnvOk(Load(s)) && "PATH" in Bindings(Load(s))
    ensures s[..4] != "ENV0" || s[4] == '\0' ==> Bindings(Load(s)) == map["PATH" := "/bin"]
  {
    hide Bindings;
    DefaultOk();
    DecodeKeeps(s, DEFAULT, 5, 0);
  }

  // Setting the texts in turn.
  function SetAll(es: seq<string>, texts: seq<string>): seq<string> {
    if texts == [] then es else Set(SetAll(es, texts[..|texts| - 1]), CStr(texts[|texts| - 1])).0
  }

  // Reading goes no further: as many entries as the count says or 64 are read, the sector is at its end, or the next
  // length is none or does not fit.
  predicate ReadingStops(s: string, off: nat, n: nat)
    requires |s| == 512
  {
    n >= s[4] as int || n >= 64 || off >= 512 || s[off] == '\0' || s[off] as int >= 96 || off + 1 + s[off] as int > 512
  }

  lemma {:induction false} DecodePacked(s: string, texts: seq<string>, i: nat)
    requires |s| == 512 && |texts| <= s[4] as int && |texts| <= 64 && i <= |texts|
    requires forall j :: 0 <= j < |texts| ==> 1 <= |texts[j]| < 96
    requires 5 + |Packed(texts)| <= 512 && s[5..5 + |Packed(texts)|] == Packed(texts)
    requires ReadingStops(s, 5 + |Packed(texts)|, |texts|)
    ensures 5 + |Packed(texts[..i])| <= 512
    ensures Decode(s, SetAll(DEFAULT, texts[..i]), 5 + |Packed(texts[..i])|, i) == SetAll(DEFAULT, texts)
    decreases |texts| - i
  {
    hide Set, Pack, Packed, CStr, SetAll, Decode;
    PackedPrefix(texts, i);
    if i == |texts| {
      assert texts[..i] == texts;
      DecodeEnds(s, SetAll(DEFAULT, texts), 5 + |Packed(texts)|, i);
    } else {
      DecodePacked(s, texts, i + 1);
      PackedPrefix(texts, i + 1);
      PackedNext(texts, i);
      PackedAt(s, Packed(texts[..i]), texts[i], Packed(texts));
      DecodeOne(s, SetAll(DEFAULT, texts[..i]), 5 + |Packed(texts[..i])|, i, texts[i]);
    }
  }

  lemma PackedNext(texts: seq<string>, i: nat)
    requires i < |texts| && forall j :: 0 <= j < |texts| ==> |texts[j]| < KV_MAX
    ensures Packed(texts[..i + 1]) == Packed(texts[..i]) + Pack(texts[i])
    ensures SetAll(DEFAULT, texts[..i + 1]) == Set(SetAll(DEFAULT, texts[..i]), CStr(texts[i])).0
  {
    assert texts[..i + 1][..i] == texts[..i];
  }

  lemma DecodeEnds(s: string, es: seq<string>, off: nat, i: nat)
    requires |s| == SECTOR && ReadingStops(s, off, i)
    ensures Decode(s, es, off, i) == es
  {
  }

  lemma DecodeOne(s: string, es: seq<string>, off: nat, i: nat, e: string)
    requires |s| == SECTOR && i < s[4] as int && i < 64 && off < 512 && s[off] as int == |e| && 1 <= |e| < 96
    requires off + 1 + |e| <= 512 && s[off + 1..off + 1 + |e|] == e
    ensures Decode(s, es, off, i) == Decode(s, Set(es, CStr(e)).0, off + 1 + |e|, i + 1)
  {
  }

  // Whatever sector bears the mark: it is read as the texts that follow each other from byte 5, each behind its
  // length, as far as the count and the sector go, and these are set in turn.
  lemma LoadPacked(s: string, texts: seq<string>)
    requires |s| == 512 && s[..4] == "ENV0" && |texts| <= s[4] as int && |texts| <= 64
    requires forall j :: 0 <= j < |texts| ==> 1 <= |texts[j]| < 96
    requires 5 + |Packed(texts)| <= 512 && s[5..5 + |Packed(texts)|] == Packed(texts)
    requires ReadingStops(s, 5 + |Packed(texts)|, |texts|)
    ensures Load(s) == SetAll(DEFAULT, texts)
  {
    hide Set;
    assert texts[..0] == [];
    DecodePacked(s, texts, 0);
  }

  // ---- Decoding an encoding ----

  // What setting the first k entries in turn makes of the default store.
  function Replay(es: seq<string>, k: nat): seq<string>
    requires k <= |es|
  {
    if k == 0 then DEFAULT else Set(Replay(es, k - 1), es[k - 1]).0
  }

  lemma {:induction false} PackedPrefix(es: seq<string>, i: nat)
    requires i <= |es| && forall j :: 0 <= j < |es| ==> |es[j]| < KV_MAX
    ensures Packed(es[..i]) <= Packed(es)
    decreases |es|
  {
    if i < |es| {
      PackedPrefix(es[..|es| - 1], i);
      assert es[..|es| - 1][..i] == es[..i];
    } else {
      assert es[..i] == es;
    }
  }

  lemma SectorHead(es: seq<string>)
    requires EntriesOk(es)
    ensures var s, k := Sector(es), StoredCount(es);
            && s[..4] == "ENV0" && s[4] == |es| as char
            && Size(es[..k]) < SECTOR && s[Size(es[..k])] == '\0' && 5 <= Size(es[..k])
            && s[5..Size(es[..k])] == Packed(es[..k])
  {
    hide Packed, Size, StoredFrom;
    var k := StoredCount(es);
    StoredLongest(es, k);
    PackedSize(es[..k]);
    var s, h := Sector(es), "ENV0" + [|es| as char];
    assert |h| == 5 && s == h + Packed(es[..k]) + Fill(SECTOR - Size(es[..k]));
  }

  // Entry i of the sector, at its offset.
  lemma SectorEntry(es: seq<string>, i: nat)
    requires EntriesOk(es) && i < StoredCount(es)
    ensures var s, off := Sector(es), Size(es[..i]);
            && off + 1 + |es[i]| == Size(es[..i + 1]) < SECTOR
            && s[off] as int == |es[i]| && s[off + 1..off + 1 + |es[i]|] == es[i]
  {
    hide Sector, StoredFrom, StoredCount;
    var s, k, off := Sector(es), StoredCount(es), Size(es[..i]);
    SectorHead(es);
    StoredLongest(es, i + 1);
    SizeSnoc(es, i);
    PackedSize(es[..i]);
    PackedPrefix(es[..k], i + 1);
    assert es[..k][..i + 1] == es[..i + 1] && es[..i + 1][..i] == es[..i];
    hide Packed, Size;
    PackedAt(s, Packed(es[..i]), es[i], Packed(es[..k]));
  }

  lemma PackedAt(s: string, before: string, e: string, all: string)
    requires |e| < KV_MAX && before + Pack(e) <= all && 5 + |all| <= |s| && s[5..5 + |all|] == all
    ensures var off := 5 + |before|; s[off] as int == |e| && s[off + 1..off + 1 + |e|] == e
  {
    PrefixAt(before, Pack(e), all);
    SliceAt(s, 5, all, |before|, 1 + |e|);
    var off := 5 + |before|;
    assert s[off..off + 1 + |e|] == Pack(e);
    assert s[off] == Pack(e)[0];
    assert s[off + 1..off + 1 + |e|] == Pack(e)[1..];
  }

  lemma PrefixAt(a: string, b: string, all: string)
    requires a + b <= all
    ensures all[|a|..|a| + |b|] == b
  {
    assert all[..|a + b|] == a + b;
    forall k | 0 <= k < |b|
      ensures all[|a| + k] == b[k]
    {
      assert all[..|a + b|][|a| + k] == (a + b)[|a| + k];
    }
  }

  lemma SliceAt(s: string, at: nat, all: string, i: nat, n: nat)
    requires at + |all| <= |s| && s[at..at + |all|] == all && i + n <= |all|
    ensures s[at + i..at + i + n] == all[i..i + n]
  {
    var x, y := all[i..i + n], s[at + i..at + i + n];
    forall k | 0 <= k < n
      ensures x[k] == y[k]
    {
      assert x[k] == all[i + k] == s[at..at + |all|][i + k] == s[at + (i + k)];
    }
  }

  lemma CStrWhole(t: Text)
    ensures CStr(t) == t
  {
    var c := CStr(t);
    assert forall i :: 0 <= i < |t| ==> t[i] in t;
  }

  // Reading entry i sets it and goes on behind it; behind the last stored entry there is nothing more.
  lemma DecodeNext(es: seq<string>, i: nat, acc: seq<string>)
    requires EntriesOk(es) && i <= StoredCount(es)
    ensures Decode(Sector(es), acc, Size(es[..i]), i) ==
            if i == StoredCount(es) then acc
            else Decode(Sector(es), Set(acc, es[i]).0, Size(es[..i + 1]), i + 1)
  {
    hide Sector, StoredFrom, StoredCount, Set, Size;
    SectorHead(es);
    if i < StoredCount(es) {
      SectorEntry(es, i);
      CStrWhole(es[i]);
    }
  }

  lemma {:induction false} DecodeReplays(es: seq<string>, i: nat)
    requires EntriesOk(es) && i <= StoredCount(es)
    ensures Decode(Sector(es), Replay(es, i), Size(es[..i]), i) == Replay(es, StoredCount(es))
    decreases |es| - i
  {
    hide *;
    DecodeNext(es, i, Replay(es, i));
    if i < StoredCount(es) {
      ReplayNext(es, i);
      DecodeReplays(es, i + 1);
    }
  }

  lemma ReplayNext(es: seq<string>, i: nat)
    requires i < |es|
    ensures Replay(es, i + 1) == Set(Replay(es, i), es[i]).0
  {
  }

  // Loading what was saved sets the stored entries in turn.
  lemma LoadSaved(es: seq<string>)
    requires EntriesOk(es)
    ensures Load(Sector(es)) == Replay(es, StoredCount(es))
  {
    SectorHead(es);
    assert es[..0] == [];
    DecodeReplays(es, 0);
  }

  // ---- The round trip ----

  function Overlay(es: seq<string>, k: nat): (m: map<string, string>)
    requires k <= |es|
  {
    if k == 0 then map["PATH" := "/bin"] else Overlay(es, k - 1)[Name(es[k - 1]) := Value(es[k - 1])]
  }

  lemma BindingsSnoc(a: seq<string>, e: string)
    requires NamesDiffer(a + [e])
    ensures Bindings(a + [e]) == Bindings(a)[Name(e) := Value(e)]
  {
    hide Bindings, Value, Name;
    var b := a + [e];
    assert forall i :: 0 <= i < |a| ==> b[i] == a[i];
    assert b[|a|] == e;
    SetBindings(a, b, |a|);
  }

  lemma PrefixDiffers(es: seq<string>, k: nat)
    requires NamesDiffer(es) && k <= |es|
    ensures NamesDiffer(es[..k])
  {
  }

  lemma NoBindings()
    ensures Bindings([]) == map[]
  {
  }

  lemma MapSnoc(d: map<string, string>, m: map<string, string>, n: string, v: string)
    ensures (d + m)[n := v] == d + m[n := v]
  {
  }

  // Overlay is {PATH -> /bin} overridden by the first k entries.
  lemma {:induction false} OverlayIs(es: seq<string>, k: nat)
    requires k <= |es| && NamesDiffer(es)
    ensures Overlay(es, k) == map["PATH" := "/bin"] + Bindings(es[..k])
  {
    hide Bindings, NamesDiffer, Name, Value;
    NoBindings();
    if k == 0 {
      assert es[..0] == [];
    } else {
      OverlayIs(es, k - 1);
      var a, e := es[..k - 1], es[k - 1];
      assert a + [e] == es[..k];
      PrefixDiffers(es, k);
      BindingsSnoc(a, e);
      MapSnoc(map["PATH" := "/bin"], Bindings(a), Name(e), Value(e));
    }
  }

  lemma DefaultOk()
    ensures EnvOk(DEFAULT) && Bindings(DEFAULT) == map["PATH" := "/bin"] && Name(DEFAULT[0]) == "PATH"
  {
    var e := DEFAULT[0];
    assert e[..4] == "PATH" && e[5..] == "/bin";
    EqAtIs(e, 4);
    assert NamesDiffer(DEFAULT);
    Bound(DEFAULT, 0);
    assert NameSet(DEFAULT) == {"PATH"} by {
      assert forall n :: n in NameSet(DEFAULT) ==> n == "PATH";
    }
  }

  // Setting a stored entry again keeps its text whole.
  lemma ResetKv(m: map<string, string>, e: string)
    requires KvOk(e)
    ensures MapSet(m, e) ==
            if Name(e) !in m && |m| >= ENV_MAX then (m, -5) else (m[Name(e) := Value(e)], 0)
  {
    EarlyEq(e);
    assert Value(e)[..|Value(e)|] == Value(e);
  }

  predicate HasPath(es: seq<string>, k: nat)
    requires k <= |es|
  {
    exists i :: 0 <= i < k && Name(es[i]) == "PATH"
  }

  lemma {:induction false} OverlayNames(es: seq<string>, k: nat)
    requires k <= |es| && NamesDiffer(es)
    ensures |Overlay(es, k)| == if HasPath(es, k) then k else k + 1
    ensures forall i :: k <= i < |es| ==> (Name(es[i]) in Overlay(es, k) <==> Name(es[i]) == "PATH")
  {
    if k == 0 {
    } else {
      OverlayNames(es, k - 1);
      hide Name, Value;
      assert Name(es[k - 1]) in Overlay(es, k - 1) <==> Name(es[k - 1]) == "PATH";
    }
  }

  // Setting one more entry overrides its name, unless 64 other names are bound.
  lemma ReplayStep(was: seq<string>, e: string)
    requires EnvOk(was) && KvOk(e)
    ensures var now := Set(was, e).0;
            && EnvOk(now)
            && Bindings(now) ==
               if Name(e) !in Bindings(was) && |Bindings(was)| >= ENV_MAX then Bindings(was)
                 else Bindings(was)[Name(e) := Value(e)]
  {
    hide *;
    hide Bindings, Set, MapSet, Name, Value;
    KvIs(e);
    SetRefines(was, e);
    ResetKv(Bindings(was), e);
  }

  lemma KvIs(e: string)
    requires KvOk(e)
    ensures '\0' !in e
  {
  }

  lemma OverlaySnoc(es: seq<string>, k: nat)
    requires NamesDiffer(es) && 0 < k <= |es|
    ensures Overlay(es, k) == Overlay(es, k - 1)[Name(es[k - 1]) := Value(es[k - 1])]
    ensures |Overlay(es, k - 1)| == if HasPath(es, k - 1) then k - 1 else k
    ensures Name(es[k - 1]) in Overlay(es, k - 1) <==> Name(es[k - 1]) == "PATH"
    ensures HasPath(es, k) <==> HasPath(es, k - 1) || Name(es[k - 1]) == "PATH"
    ensures HasPath(es, k - 1) ==> Name(es[k - 1]) != "PATH"
  {
    hide Name, Value;
    OverlayNames(es, k - 1);
  }

  // The first k entries override the default exactly when PATH is among them or fewer than 64 are replayed.
  lemma {:induction false} ReplayOverlays(es: seq<string>, k: nat)
    requires EnvOk(es) && k <= |es|
    ensures EnvOk(Replay(es, k))
    ensures Bindings(Replay(es, k)) == Overlay(es, k) <==> k < ENV_MAX || HasPath(es, k)
    decreases k
  {
    hide Bindings, Set, Name, Value, HasPath, Overlay, KvOk, NamesDiffer;
    if k == 0 {
      DefaultOk();
      OverlayNone(es);
    } else {
      ReplayOverlays(es, k - 1);
      ReplayStep(Replay(es, k - 1), es[k - 1]);
      OverlaySnoc(es, k);
    }
  }

  lemma OverlayNone(es: seq<string>)
    ensures Overlay(es, 0) == map["PATH" := "/bin"]
  {
  }

  // Save and load, exactly: a fresh store that loads the sector of es holds {PATH -> /bin} overridden by the
  // longest prefix of es that fits the sector if and only if that prefix has under 64 entries or contains PATH.
  lemma SaveLoadExactly(es: seq<string>)
    requires EnvOk(es)
    ensures var k, loaded := StoredCount(es), Load(Sector(es));
            && EnvOk(loaded)
            && (Bindings(loaded) == map["PATH" := "/bin"] + Bindings(es[..k]) <==> k < ENV_MAX || HasPath(es, k))
  {
    hide Sector, Load, Bindings;
    LoadSaved(es);
    OverlayIs(es, StoredCount(es));
    ReplayOverlays(es, StoredCount(es));
  }

  // ---- A full table without PATH ----

  // Sixty-four two-character entries, all stored.
  function FullTable(n: nat): seq<string>
    requires n <= ENV_MAX
  {
    seq(n, i requires 0 <= i < n => [(65 + i) as char, '='])
  }

  lemma FullTableOk(n: nat)
    requires n <= ENV_MAX
    ensures EnvOk(FullTable(n)) && !HasPath(FullTable(n), n)
  {
    var es := FullTable(n);
    forall i | 0 <= i < n
      ensures EqAt(es[i]) == 1 && KvOk(es[i]) && Name(es[i]) == [(65 + i) as char]
    {
      EqAtIs(es[i], 1);
    }
  }

  lemma {:induction false} FullTableSize(n: nat)
    requires n <= ENV_MAX
    ensures Size(FullTable(n)) == 5 + 3 * n
  {
    if n == 0 {
    } else {
      assert FullTable(n)[..n - 1] == FullTable(n - 1);
      FullTableSize(n - 1);
    }
  }

  // Every entry of this table reaches the sector, and yet the reloaded store is not the default overridden by them.
  lemma FullTableLosesOne()
    ensures var es := FullTable(ENV_MAX);
            && EnvOk(es) && StoredCount(es) == ENV_MAX
            && Bindings(Load(Sector(es))) != map["PATH" := "/bin"] + Bindings(es)
  {
    hide Bindings, Sector, Load, HasPath, Size, StoredFrom;
    var es := FullTable(ENV_MAX);
    FullTableOk(ENV_MAX);
    FullTableSize(ENV_MAX);
    assert es[..ENV_MAX] == es;
    StoredLongest(es, ENV_MAX);
    SaveLoadExactly(es);
  }
}
