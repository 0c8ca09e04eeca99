/** Which file names the provider reads, and in which order a directory is gone through. */
module DynamicNames {
  import opened Sorting
  import opened TextOrder
  import opened ProviderWalk

  lemma {:induction false} LowerByChar(text: string)
    ensures |Lower(text)| == |text|
    ensures forall k :: 0 <= k < |text| ==>
      Lower(text)[k] == if 'A' <= text[k] <= 'Z' then (text[k] as int + 32) as char else text[k]
    decreases |text|
  {
    if text != "" {
      LowerByChar(text[1..]);
    }
  }

  /** The last dot of the name is at position `i`. */
  predicate LastDot(name: string, i: nat) {
    i < |name| && name[i] == '.' && '.' !in name[i + 1..]
  }

  lemma {:induction false} ExtensionFromLastDot(name: string)
    ensures '.' !in name ==> Extension(name) == ""
    ensures forall i: nat :: LastDot(name, i) ==> Extension(name) == name[i..]
    decreases |name|
  {
    if name != "" {
      var rest := name[1..];
      ExtensionFromLastDot(rest);
      assert name == [name[0]] + rest;
      forall i: nat | LastDot(name, i) ensures Extension(name) == name[i..] {
        if i == 0 {
          assert name[0..] == name;
        } else {
          assert rest[i - 1..] == name[i..] && rest[i..] == name[i + 1..];
          assert LastDot(rest, i - 1);
        }
      }
    }
  }

  lemma {:induction false} SomeLastDot(name: string) returns (i: nat)
    requires '.' in name
    ensures LastDot(name, i)
    decreases |name|
  {
    var rest := name[1..];
    if '.' in rest {
      var k := SomeLastDot(rest);
      assert rest[k + 1..] == name[k + 2..];
      i := k + 1;
    } else {
      assert name == [name[0]] + rest;
      i := 0;
    }
  }

  /** One of the three endings, in whatever case. */
  predicate Ending(text: string) {
    Lower(text) == ".toml" || Lower(text) == ".yaml" || Lower(text) == ".yml"
  }

  lemma EndingHasOneDot(text: string)
    requires Ending(text)
    ensures LastDot(text, 0)
  {
    LowerByChar(text);
    forall k | 0 < k < |text| ensures text[k] != '.' {
      assert Lower(text)[k] != '.';
    }
    assert Lower(text)[0] == '.';
  }

  /** The provider reads exactly the names that end in `.toml`, `.yaml` or `.yml`, in whatever case. */
  lemma DynamicNameIff(name: string)
    ensures DynamicName(name) <==> exists i: nat :: i <= |name| && Ending(name[i..])
  {
    ExtensionFromLastDot(name);
    LowerByChar("");
    hide Extension, Lower;
    if i: nat :| i <= |name| && Ending(name[i..]) {
      EndingHasOneDot(name[i..]);
      assert name[i..][1..] == name[i + 1..];
      assert LastDot(name, i);
    }
    if '.' in name {
      var i := SomeLastDot(name);
      assert Extension(name) == name[i..];
    }
  }

  // ---- The order of the entries -------------------------------------------------------------------

  ghost predicate ByNameAscending(entries: seq<Entry>) {
    forall i, k :: 0 <= i < k < |entries| ==> !Less(entries[k].name, entries[i].name)
  }

  lemma InsertByName(e: Entry, entries: seq<Entry>)
    requires entries != [] && Less(entries[0].name, e.name) && ByNameAscending(entries)
    requires ByNameAscending(Insert(ByName(), e, entries[1..]))
    ensures ByNameAscending([entries[0]] + Insert(ByName(), e, entries[1..]))
  {
    hide Less;
    LessIsStrictTotal();
    var rest, all := Insert(ByName(), e, entries[1..]), [entries[0]] + Insert(ByName(), e, entries[1..]);
    assert multiset(rest) == multiset(entries[1..]) + multiset{e};
    hide Insert;
    forall k | 0 <= k < |rest| ensures !Less(rest[k].name, entries[0].name) {
      InsertedOrThere(rest, e, entries[1..], k);
      if rest[k] != e {
        var i :| 0 <= i < |entries[1..]| && entries[1..][i] == rest[k];
        assert entries[i + 1] == rest[k];
      }
    }
    assert forall k :: 0 < k < |all| ==> all[k] == rest[k - 1];
  }

  lemma InsertedOrThere(rest: seq<Entry>, e: Entry, entries: seq<Entry>, k: nat)
    requires multiset(rest) == multiset(entries) + multiset{e} && k < |rest|
    ensures rest[k] == e || exists i :: 0 <= i < |entries| && entries[i] == rest[k]
  {
    assert rest[k] in multiset(rest);
    assert rest[k] == e || rest[k] in multiset(entries);
  }

  lemma {:induction false} InsertedByName(e: Entry, entries: seq<Entry>)
    requires ByNameAscending(entries)
    ensures ByNameAscending(Insert(ByName(), e, entries))
    decreases |entries|
  {
    hide Less;
    LessIsStrictTotal();
    if entries != [] {
      if Less(entries[0].name, e.name) {
        InsertedByName(e, entries[1..]);
        InsertByName(e, entries);
      }
    }
  }

  lemma {:induction false} SortedByName(entries: seq<Entry>)
    ensures ByNameAscending(Sorted(ByName(), entries))
    decreases |entries|
  {
    if entries != [] {
      SortedByName(entries[1..]);
      InsertedByName(entries[0], Sorted(ByName(), entries[1..]));
    }
  }

  /** The files of a directory are taken by name, and so are its subdirectories. */
  lemma EntriesByName(dir: Dir)
    ensures ByNameAscending(Leaves(dir)) && ByNameAscending(Subdirs(dir))
  {
    SortedByName(LeavesIn(dir.entries));
    SortedByName(Descended(dir.entries));
    hide ByNameAscending;
  }
}
