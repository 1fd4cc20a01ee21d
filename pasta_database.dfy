/**
 * The pasta catalog (pasta_database.py): eight fixed built-in pasta types and
 * a table of user-added custom ones, keyed by lower-cased name. Lookups are
 * case-insensitive and prefer a custom entry; custom entries are added after
 * validation, removed by key, and count their uses.
 *
 * Loading the custom table from storage is a constructor parameter; saving it
 * is a call whose boolean result is a method parameter; the creation timestamp
 * is a parameter too.
 */
module Catalog {
  import opened Results
  import opened Strings
  import opened Models
  import opened Validators
  import opened Dicts

  /** The built-in pasta types in declaration order: name, minimum and maximum minutes. */
  const BuiltInTable: seq<(string, int, int)> := [
    ("spaghetti", 8, 10),
    ("penne", 11, 13),
    ("fusilli", 9, 11),
    ("rigatoni", 12, 14),
    ("linguine", 8, 10),
    ("farfalle", 10, 12),
    ("angel hair", 3, 5),
    ("fettuccine", 9, 11)
  ]

  /**
   * The keys of the built-in table, each pasta's own name: one per row, all
   * different, and already lower-case, so a lower-cased query can reach each.
   */
  function BuiltInNames(): (names: seq<string>)
    ensures |names| == |BuiltInTable|
    ensures Distinct(names)
    ensures forall n :: n in names ==> Lower(n) == n
  {
    var names := seq(|BuiltInTable|, i requires 0 <= i < |BuiltInTable| => BuiltInTable[i].0);
    assert names == ["spaghetti", "penne", "fusilli", "rigatoni", "linguine", "farfalle", "angel hair", "fettuccine"];
    assert forall n :: n in names ==> Lower(n) == n by {
      forall n | n in names ensures Lower(n) == n {
        LowerOfLowerCase(n);
      }
    }
    names
  }

  /** Every built-in name has at least five characters. */
  lemma BuiltInNamesAreLong()
    ensures forall x :: x in BuiltInNames() ==> |x| >= 5
  {
    assert BuiltInNames() ==
      ["spaghetti", "penne", "fusilli", "rigatoni", "linguine", "farfalle", "angel hair", "fettuccine"];
  }

  /** A built-in record as the table declares it. */
  predicate BuiltInRecord(p: PastaInfo, row: (string, int, int))
  {
    p.name == row.0 && p.minTime == row.1 && p.maxTime == row.2 && !p.isCustom
  }

  /** A table of custom records: a valid dict of distinct records, each marked custom. */
  predicate CustomTable(d: Dict<PastaInfo>)
  {
    d.Valid() &&
    (forall k :: k in d.entries ==> d.entries[k].isCustom) &&
    (forall k1, k2 :: k1 in d.entries && k2 in d.entries && k1 != k2 ==> d.entries[k1] != d.entries[k2])
  }

  /** Adding a record that is marked custom and not yet in the table keeps it a custom table. */
  lemma PutNewRecord(d: Dict<PastaInfo>, k: string, p: PastaInfo)
    requires CustomTable(d) && p.isCustom
    requires forall x :: x in d.entries ==> d.entries[x] != p
    ensures CustomTable(d.Put(k, p))
  {
  }

  /** Every key, stripped, is the lower-cased name of its record. */
  predicate KeysMatch(d: Dict<PastaInfo>)
  {
    forall k :: k in d.entries ==> Strip(k) == Lower(d.entries[k].name)
  }

  /**
   * Storing a record named by the stripped name under the lower-cased name, as
   * adding a custom pasta does, keeps keys matching names.
   */
  lemma AddKeepsKeysMatch(d: Dict<PastaInfo>, name: string, p: PastaInfo)
    requires d.Valid() && KeysMatch(d) && p.name == Strip(name)
    ensures KeysMatch(d.Put(Lower(name), p))
  {
    StripLower(name);
  }

  /** Removing a key keeps keys matching names. */
  lemma RemoveKeepsKeysMatch(d: Dict<PastaInfo>, k: string)
    requires d.Valid() && KeysMatch(d)
    ensures KeysMatch(d.Remove(k))
  {
  }

  /** Names ordered by code point, as Python compares strings. */
  predicate SortedByName(s: seq<PastaInfo>)
  {
    forall i, j :: 0 <= i < j < |s| ==> StrLe(s[i].name, s[j].name)
  }

  /** Places `p` before the first record whose name is not below its own. */
  function InsertByName(p: PastaInfo, s: seq<PastaInfo>): (r: seq<PastaInfo>)
    ensures multiset(r) == multiset(s) + multiset{p}
  {
    if s == [] || StrLe(p.name, s[0].name) then [p] + s
    else
      assert s == [s[0]] + s[1..];
      [s[0]] + InsertByName(p, s[1..])
  }

  /** `sorted(records, key=lambda p: p.name)`: the same records, ordered by name. */
  function SortByName(s: seq<PastaInfo>): (r: seq<PastaInfo>)
    ensures multiset(r) == multiset(s)
    ensures |r| == |s|
  {
    if s == [] then []
    else
      assert s == [s[0]] + s[1..];
      InsertByName(s[0], SortByName(s[1..]))
  }

  lemma {:induction false} InsertByNameSorted(p: PastaInfo, s: seq<PastaInfo>)
    requires SortedByName(s)
    ensures SortedByName(InsertByName(p, s))
  {
    if s == [] || StrLe(p.name, s[0].name) {
      var r := [p] + s;
      forall i, j | 0 <= i < j < |r| ensures StrLe(r[i].name, r[j].name) {
        if i == 0 {
          if j > 1 {
            StrLeTransitive(p.name, s[0].name, s[j - 1].name);
          }
        } else {
          assert r[i] == s[i - 1] && r[j] == s[j - 1];
        }
      }
    } else {
      var tail := s[1..];
      assert SortedByName(tail) by {
        forall i, j | 0 <= i < j < |tail| ensures StrLe(tail[i].name, tail[j].name) {
          assert tail[i] == s[i + 1] && tail[j] == s[j + 1];
        }
      }
      InsertByNameSorted(p, tail);
      StrLeTotal(p.name, s[0].name);
      var rest := InsertByName(p, tail);
      var r := [s[0]] + rest;
      forall i, j | 0 <= i < j < |r| ensures StrLe(r[i].name, r[j].name) {
        if i == 0 {
          var q := rest[j - 1];
          assert q in multiset(rest);
          if q != p {
            assert q in multiset(tail);
            var m :| 0 <= m < |tail| && tail[m] == q;
            assert q == s[m + 1];
          }
        } else {
          assert r[i] == rest[i - 1] && r[j] == rest[j - 1];
        }
      }
    }
  }

  /** The sort leaves the records ordered by name. */
  lemma {:induction false} SortByNameSorted(s: seq<PastaInfo>)
    ensures SortedByName(SortByName(s))
  {
    if s != [] {
      SortByNameSorted(s[1..]);
      InsertByNameSorted(s[0], SortByName(s[1..]));
    }
  }

  /** The names of some records, in order. */
  function Names(records: seq<PastaInfo>): (names: seq<string>)
    ensures |names| == |records|
    ensures forall i :: 0 <= i < |records| ==> names[i] == records[i].name
  {
    seq(|records|, i requires 0 <= i < |records| => records[i].name)
  }

  /** A dict literal mapping each record's name to the record, in list order. */
  function Keyed(records: seq<PastaInfo>): (d: Dict<PastaInfo>)
    requires Distinct(Names(records))
    ensures d.Valid() && d.keys == Names(records)
    ensures forall i :: 0 <= i < |records| ==> d.entries[records[i].name] == records[i]
  {
    if records == [] then Dict([], map[])
    else
      var init := records[..|records| - 1];
      var last := records[|records| - 1];
      assert Names(records) == Names(init) + [last.name];
      Keyed(init).Put(last.name, last)
  }

  class PastaDatabase {
    /** The eight built-in records, keyed by name. */
    const builtIn: Dict<PastaInfo>
    /** The custom records, keyed by the lower-cased name they were added under. */
    var custom: Dict<PastaInfo>

    ghost predicate Valid()
      reads this
    {
      builtIn.Valid() && builtIn.keys == BuiltInNames() &&
      (forall i :: 0 <= i < |BuiltInTable| ==> BuiltInRecord(builtIn.entries[BuiltInNames()[i]], BuiltInTable[i])) &&
      CustomTable(custom)
    }

    /**
     * Every custom key, stripped, is the lower-cased name of its record: what
     * adding through `AddCustomPasta` keeps, whatever storage supplied.
     */
    predicate KeysMatchNames()
      reads this
    {
      KeysMatch(custom)
    }

    /** The built-in table, and the custom table as storage loaded it. */
    constructor (loaded: Dict<PastaInfo>)
      requires CustomTable(loaded)
      ensures Valid()
      ensures custom == loaded
      ensures forall i :: 0 <= i < |BuiltInTable| ==>
                builtIn.entries[BuiltInNames()[i]].usageCount == 0 && builtIn.entries[BuiltInNames()[i]].createdDate == None
    {
      var spaghetti := new PastaInfo("spaghetti", 8, 10);
      var penne := new PastaInfo("penne", 11, 13);
      var fusilli := new PastaInfo("fusilli", 9, 11);
      var rigatoni := new PastaInfo("rigatoni", 12, 14);
      var linguine := new PastaInfo("linguine", 8, 10);
      var farfalle := new PastaInfo("farfalle", 10, 12);
      var angelHair := new PastaInfo("angel hair", 3, 5);
      var fettuccine := new PastaInfo("fettuccine", 9, 11);
      var records := [spaghetti, penne, fusilli, rigatoni, linguine, farfalle, angelHair, fettuccine];
      assert forall i :: 0 <= i < |records| ==> BuiltInRecord(records[i], BuiltInTable[i]);
      assert Names(records) == BuiltInNames();
      assert forall i :: 0 <= i < |records| ==> records[i].usageCount == 0 && records[i].createdDate == None;
      builtIn := Keyed(records);
      custom := loaded;
    }

    /**
     * `get_pasta_info`: the query is lower-cased; a custom record under that
     * key wins over a built-in one.
     */
    function GetPastaInfo(name: string): (r: Option<PastaInfo>)
      reads this
      requires Valid()
      ensures Lower(name) in custom.entries ==> r == Some(custom.entries[Lower(name)])
      ensures (r.Some? && r.value.isCustom) <==> Lower(name) in custom.entries
      ensures (r.Some? && !r.value.isCustom) <==> Lower(name) !in custom.entries && Lower(name) in BuiltInNames()
      ensures r.Some? && !r.value.isCustom ==> r.value.name == Lower(name)
      ensures Lower(name) !in custom.entries && Lower(name) in builtIn.entries ==>
                r == Some(builtIn.entries[Lower(name)])
      ensures forall i :: 0 <= i < |BuiltInTable| && BuiltInTable[i].0 == Lower(name) && Lower(name) !in custom.entries ==>
                r.Some? && BuiltInRecord(r.value, BuiltInTable[i])
    {
      var key := Lower(name);
      if key in custom.entries then Some(custom.entries[key])
      else if key in builtIn.entries then Some(builtIn.entries[key])
      else None
    }

    /** Two names that differ only in letter case find the same record, or none. */
    lemma LookupIgnoresCase(a: string, b: string)
      requires Valid() && SameIgnoringCase(a, b)
      ensures GetPastaInfo(a) == GetPastaInfo(b)
    {
      LowerEqualIffSameIgnoringCase(a, b);
    }

    /** `get_built_in_pasta_types`: the eight built-in records, in declaration order. */
    function GetBuiltInPastaTypes(): (r: seq<PastaInfo>)
      reads this
      requires Valid()
      ensures |r| == |BuiltInTable|
      ensures forall i :: 0 <= i < |r| ==> BuiltInRecord(r[i], BuiltInTable[i])
    {
      builtIn.Values()
    }

    /** `get_custom_pasta_types`: every custom record, in the order the keys were added. */
    function GetCustomPastaTypes(): (r: seq<PastaInfo>)
      reads this
      requires Valid()
      ensures |r| == |custom.keys|
      ensures forall i :: 0 <= i < |r| ==> r[i].isCustom && r[i] == custom.entries[custom.keys[i]]
      ensures forall k :: k in custom.entries ==> custom.entries[k] in r
    {
      custom.Values()
    }

    /** `get_all_pasta_types`: built-in and custom records together, ordered by name. */
    function GetAllPastaTypes(): (r: seq<PastaInfo>)
      reads this
      requires Valid()
      ensures SortedByName(r)
      ensures multiset(r) == multiset(GetBuiltInPastaTypes() + GetCustomPastaTypes())
      ensures |r| == |BuiltInTable| + |custom.keys|
    {
      var all := GetBuiltInPastaTypes() + GetCustomPastaTypes();
      SortByNameSorted(all);
      SortByName(all)
    }

    /** `get_pasta_names`: the names of all records, in the same order. */
    function GetPastaNames(): (r: seq<string>)
      reads this
      requires Valid()
      ensures |r| == |GetAllPastaTypes()|
      ensures forall i :: 0 <= i < |r| ==> r[i] == GetAllPastaTypes()[i].name
      ensures forall i, j :: 0 <= i < j < |r| ==> StrLe(r[i], r[j])
    {
      Names(GetAllPastaTypes())
    }

    /** `is_custom_pasta`: whether the lookup finds a custom record. */
    function IsCustomPasta(name: string): (r: bool)
      reads this
      requires Valid()
      ensures r <==> GetPastaInfo(name).Some? && GetPastaInfo(name).value.isCustom
    {
      Lower(name) in custom.entries
    }

    /** `get_custom_pasta_count`: how many custom records there are. */
    function GetCustomPastaCount(): (n: nat)
      reads this
      requires Valid()
      ensures n == |GetCustomPastaTypes()|
    {
      Size(custom);
      |custom.entries|
    }

    /**
     * `add_custom_pasta`: the name is checked against every current name and
     * the times against their bounds, the first failure being the error; a
     * valid pasta is stored, stripped, under its lower-cased name as entered,
     * and the result is what saving returned.
     */
    method AddCustomPasta(name: string, minTime: Minutes, maxTime: Minutes, createdDate: string, saved: bool)
      returns (r: Result<bool>)
      requires Valid()
      modifies this`custom
      ensures Valid()
      ensures var nameCheck := ValidatePastaName(name, old(GetPastaNames()));
              !nameCheck.0 ==> r == Failure(nameCheck.1) && custom == old(custom)
      ensures var nameCheck := ValidatePastaName(name, old(GetPastaNames()));
              var timeCheck := ValidateCookingTime(minTime, maxTime);
              nameCheck.0 && !timeCheck.0 ==> r == Failure(timeCheck.1) && custom == old(custom)
      ensures var nameCheck := ValidatePastaName(name, old(GetPastaNames()));
              var timeCheck := ValidateCookingTime(minTime, maxTime);
              nameCheck.0 && timeCheck.0 ==>
                r == Success(saved) &&
                Lower(name) in custom.entries &&
                var p := custom.entries[Lower(name)];
                fresh(p) && custom == old(custom).Put(Lower(name), p) &&
                p.name == Strip(name) && p.minTime == minTime.n && p.maxTime == maxTime.n &&
                p.isCustom && p.usageCount == 0 && p.createdDate == Some(createdDate) &&
                GetPastaInfo(name) == Some(p)
      ensures old(KeysMatchNames()) && r.Success? ==>
                Lower(name) !in old(custom.entries) && GetCustomPastaCount() == old(GetCustomPastaCount()) + 1
    {
      var existingNames := GetPastaNames();
      var nameCheck := ValidatePastaName(name, existingNames);
      if !nameCheck.0 {
        return Failure(nameCheck.1);
      }
      var timeCheck := ValidateCookingTime(minTime, maxTime);
      if !timeCheck.0 {
        return Failure(timeCheck.1);
      }
      if KeysMatchNames() {
        KeyInUseIsTaken(name);
      }
      var info := StoreNew(name, minTime.n, maxTime.n, createdDate);
      r := Success(saved);
    }

    /** The store step of `add_custom_pasta`: a new custom record, under the lower-cased name as entered. */
    method StoreNew(name: string, minTime: int, maxTime: int, createdDate: string) returns (p: PastaInfo)
      requires Valid()
      modifies this`custom
      ensures Valid()
      ensures fresh(p) && custom == old(custom).Put(Lower(name), p)
      ensures p.name == Strip(name) && p.minTime == minTime && p.maxTime == maxTime
      ensures p.isCustom && p.usageCount == 0 && p.createdDate == Some(createdDate)
      ensures Lower(name) !in old(custom.entries) ==> |custom.entries| == old(|custom.entries|) + 1
    {
      p := new PastaInfo.Full(Strip(name), minTime, maxTime, true, 0, Some(createdDate));
      PutNewRecord(custom, Lower(name), p);
      custom := custom.Put(Lower(name), p);
    }

    /** Every custom record's name is among the names the validator is given. */
    lemma CustomNameListed(k: string)
      requires Valid() && k in custom.entries
      ensures custom.entries[k].name in GetPastaNames()
    {
      var p := custom.entries[k];
      var customs := GetCustomPastaTypes();
      assert p in customs;
      assert p in multiset(GetBuiltInPastaTypes() + customs);
      var sorted := GetAllPastaTypes();
      assert p in multiset(sorted);
      var j :| 0 <= j < |sorted| && sorted[j] == p;
      assert GetPastaNames()[j] == p.name;
    }

    /**
     * While every key matches its record's name, a name whose key is already in
     * use is refused: the validator finds that record's name taken.
     */
    lemma KeyInUseIsTaken(name: string)
      requires Valid() && KeysMatchNames()
      ensures Lower(name) in custom.entries ==> !ValidatePastaName(name, GetPastaNames()).0
    {
      if Lower(name) in custom.entries {
        var names := GetPastaNames();
        var p := custom.entries[Lower(name)];
        CustomNameListed(Lower(name));
        StripLower(name);
        LowerIdempotent(p.name);
        var j :| 0 <= j < |names| && names[j] == p.name;
        assert Lower(names[j]) == Lower(Strip(name));
        ValidNameIff(name, names);
      }
    }

    /** With no custom records, the names the validator is given are the built-in ones. */
    lemma OnlyBuiltInNames()
      requires Valid() && custom.keys == []
      ensures forall j :: 0 <= j < |GetPastaNames()| ==> GetPastaNames()[j] in BuiltInNames()
    {
      var names := GetPastaNames();
      var all := GetAllPastaTypes();
      var builtIns := GetBuiltInPastaTypes();
      assert GetCustomPastaTypes() == [];
      assert builtIns + [] == builtIns;
      forall j | 0 <= j < |names| ensures names[j] in BuiltInNames() {
        assert all[j] in multiset(builtIns);
        var i :| 0 <= i < |builtIns| && builtIns[i] == all[j];
        assert names[j] == BuiltInNames()[i];
      }
    }

    /** With no custom records, "Ziti " passes name validation: no built-in name has four letters. */
    lemma ZitiIsNew()
      requires Valid() && custom.keys == []
      ensures ValidatePastaName("Ziti ", GetPastaNames()).0
    {
      var names := GetPastaNames();
      assert !Taken("Ziti", names) by {
        OnlyBuiltInNames();
        BuiltInNamesAreLong();
        forall j | 0 <= j < |names| ensures Lower(names[j]) != Lower("Ziti") {
          assert |Lower(names[j])| >= 5;
        }
      }
      assert Strip("Ziti ") == "Ziti" && AllowedChars("Ziti") by {
        ZitiStrings();
      }
      ValidNameIff("Ziti ", names);
    }

    /**
     * `remove_custom_pasta`: deletes the record under the lower-cased name, if
     * there is one, and returns what saving returned; otherwise returns false.
     * Built-in records are never touched.
     */
    method RemoveCustomPasta(name: string, saved: bool) returns (r: bool)
      requires Valid()
      modifies this`custom
      ensures Valid()
      ensures Lower(name) in old(custom.entries) ==>
                r == saved && custom == old(custom).Remove(Lower(name)) &&
                GetCustomPastaCount() == old(GetCustomPastaCount()) - 1
      ensures Lower(name) !in old(custom.entries) ==> !r && custom == old(custom)
      ensures !IsCustomPasta(name)
      ensures old(KeysMatchNames()) ==> KeysMatchNames()
    {
      var key := Lower(name);
      if key in custom.entries {
        Size(custom);
        if KeysMatch(custom) {
          RemoveKeepsKeysMatch(custom, key);
        }
        custom := custom.Remove(key);
        Size(custom);
        assert custom.entries.Keys == old(custom.entries).Keys - {key};
        return saved;
      }
      return false;
    }

    /**
     * `increment_pasta_usage`: a custom record the lookup finds gets one more
     * use; built-in and unknown names change nothing. The save result is ignored.
     */
    method IncrementPastaUsage(name: string)
      requires Valid()
      modifies custom.entries.Values
      ensures IsCustomPasta(name) ==>
                var p := custom.entries[Lower(name)];
                p.usageCount == old(p.usageCount) + 1
      ensures forall k :: k in custom.entries && k != Lower(name) ==>
                custom.entries[k].usageCount == old(custom.entries[k].usageCount)
      ensures forall k :: k in builtIn.entries ==> builtIn.entries[k].usageCount == old(builtIn.entries[k].usageCount)
    {
      var info := GetPastaInfo(name);
      if info.Some? && info.value.isCustom {
        info.value.IncrementUsage();
      }
    }
  }

  /** The name of the padded-name scenario, stripped, and its characters. */
  lemma ZitiStrings()
    ensures Strip("Ziti ") == "Ziti" && AllowedChars("Ziti")
  {
    assert TrimStart("Ziti ") == "Ziti ";
    assert TrimEnd("Ziti ") == "Ziti";
  }

  /** A fresh catalog without custom records, after adding "Ziti ", holds it under its key only. */
  method AddPaddedName() returns (db: PastaDatabase, added: Result<bool>)
    ensures fresh(db) && db.Valid()
    ensures added == Success(true)
    ensures db.custom.entries.Keys == {Lower("Ziti ")}
  {
    db := new PastaDatabase(Dict([], map[]));
    db.ZitiIsNew();
    assert ValidateCookingTime(Whole(10), Whole(12)).0;
    added := db.AddCustomPasta("Ziti ", Whole(10), Whole(12), "2024-01-01T00:00:00", true);
  }

  /**
   * With the key taken from the name as entered, a name entered with a
   * trailing space is stored as "Ziti" under "ziti ", where neither the lookup
   * nor the removal of its own stored name reaches it.
   */
  method PaddedNameIsUnreachable() returns (added: Result<bool>, found: Option<PastaInfo>, removed: bool)
    ensures added == Success(true)
    ensures found == None && !removed
  {
    var db;
    db, added := AddPaddedName();
    assert Lower("Ziti") !in db.custom.entries && Lower("Ziti") !in BuiltInNames() by {
      BuiltInNamesAreLong();
      assert |Lower("Ziti")| == 4 && |Lower("Ziti ")| == 5;
    }
    found := db.GetPastaInfo("Ziti");
    removed := db.RemoveCustomPasta("Ziti", true);
  }
}
