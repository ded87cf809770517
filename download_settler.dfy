/**
 * The settle loop of dags/rpps_dag.py: after the grace period, every name of
 * one directory listing that ends in ".crdownload" is renamed to the name
 * with every ".crdownload" removed, or deleted when that name is taken; then
 * the entries are counted.
 */
module DownloadSettler {
  import opened Text

  /** The marker Chrome appends to a download in progress. */
  const InProgress := ".crdownload"

  type Bytes = seq<bv8>

  predicate IsPartial(name: string) {
    EndsWith(name, InProgress)
  }

  /** arquivo.replace(".crdownload", "") */
  function FinalName(name: string): string {
    RemoveAll(name, InProgress)
  }

  /** The usual case: a download "x.crdownload" with no marker inside x settles as x. */
  lemma FinalNameOfDownload(x: string)
    requires !Contains(x, InProgress)
    ensures IsPartial(x + InProgress) && FinalName(x + InProgress) == x
  {
    RemoveAllSplit(x, InProgress, []);
    RemoveAllAbsent(x, InProgress);
    assert x + InProgress + [] == x + InProgress;
    assert (x + InProgress)[|x|..] == InProgress;
  }

  /** A partial name never settles onto itself, so the rename always moves the entry. */
  lemma FinalNameDiffers(name: string)
    requires IsPartial(name)
    ensures FinalName(name) != name && |FinalName(name)| < |name|
  {
    var x := name[..|name| - |InProgress|];
    assert name == x + InProgress + [];
    RemoveAllSplit(x, InProgress, []);
  }

  /**
   * Paths that exist in every directory although no listing names them:
   * joining "" gives the directory itself, "." is the directory and ".."
   * its parent.
   */
  predicate AlwaysExists(name: string) {
    name == "" || name == "." || name == ".."
  }

  /** The rename target already exists. */
  predicate Taken(m: map<string, Bytes>, target: string) {
    target in m || AlwaysExists(target)
  }

  /**
   * One iteration for `name`: a partial entry moves to FinalName(name), or
   * is removed when that name exists (FileExistsError), leaving the
   * existing entry untouched; any other name is left alone.
   */
  function SettleOne(m: map<string, Bytes>, name: string): (r: map<string, Bytes>)
    ensures !IsPartial(name) || name !in m ==> r == m
    ensures IsPartial(name) && name in m ==> name !in r
    ensures IsPartial(name) && name in m && Taken(m, FinalName(name)) ==> r == m - {name}
    ensures IsPartial(name) && name in m && !Taken(m, FinalName(name)) ==>
      FinalName(name) in r && r[FinalName(name)] == m[name] && r.Keys == m.Keys - {name} + {FinalName(name)}
    ensures forall k :: k in m && k != name ==> k in r && r[k] == m[k]
  {
    if !IsPartial(name) || name !in m then m
    else
      FinalNameDiffers(name);
      var target := FinalName(name);
      if Taken(m, target) then m - {name} else (m - {name})[target := m[name]]
  }

  /** The directory after the loop has visited the names of `listing` in order. */
  function Settled(m: map<string, Bytes>, listing: seq<string>): map<string, Bytes> {
    if listing == [] then m
    else SettleOne(Settled(m, listing[..|listing| - 1]), listing[|listing| - 1])
  }

  lemma SettledStep(m: map<string, Bytes>, listing: seq<string>, name: string)
    ensures Settled(m, listing + [name]) == SettleOne(Settled(m, listing), name)
  {
    assert (listing + [name])[..|listing|] == listing;
  }

  predicate Distinct(listing: seq<string>) {
    forall i, j :: 0 <= i < j < |listing| ==> listing[i] != listing[j]
  }

  /** The scratch directory the browser downloads into. */
  class ScratchDir {
    var entries: map<string, Bytes>

    constructor (initial: map<string, Bytes>)
      ensures entries == initial
    {
      entries := initial;
    }

    /** One pass of the loop body: rename `arquivo`, or remove it when its final name is taken. */
    method SettleEntry(arquivo: string)
      requires arquivo in entries
      modifies this
      ensures entries == SettleOne(old(entries), arquivo)
    {
      if EndsWith(arquivo, InProgress) {
        var target := FinalName(arquivo);
        FinalNameDiffers(arquivo);
        if target in entries || AlwaysExists(target) {
          entries := entries - {arquivo};                            // FileExistsError: os.remove
        } else {
          entries := (entries - {arquivo})[target := entries[arquivo]];  // os.rename
        }
      }
    }

    /**
     * The loop over os.listdir(pasta_downloads) and the count after it.
     * `listing` is that listing: every entry exactly once, in the order the
     * operating system returns them.
     */
    method Settle(listing: seq<string>) returns (total: nat)
      requires forall k :: k in entries <==> k in listing
      requires Distinct(listing)
      modifies this
      ensures entries == Settled(old(entries), listing)
      ensures total == |entries|
    {
      var i := 0;
      while i < |listing|
        invariant 0 <= i <= |listing|
        invariant entries == Settled(old(entries), listing[..i])
        invariant forall j :: i <= j < |listing| ==> listing[j] in entries
      {
        ghost var before := entries;
        SettleEntry(listing[i]);
        SettledStep(old(entries), listing[..i], listing[i]);
        assert listing[..i] + [listing[i]] == listing[..i + 1];
        forall j | i + 1 <= j < |listing| ensures listing[j] in entries {
          assert listing[j] != listing[i] && listing[j] in before;
        }
        i := i + 1;
      }
      assert listing[..|listing|] == listing;
      total := |entries|;
    }
  }

  // ------------------------------------------------ what settling promises

  /** Entries that are not partial downloads survive with their content, whatever the order. */
  lemma {:induction false} SettledKeepsCompleteFiles(m: map<string, Bytes>, listing: seq<string>, k: string)
    requires k in m && !IsPartial(k)
    ensures k in Settled(m, listing) && Settled(m, listing)[k] == m[k]
  {
    if listing != [] {
      SettledKeepsCompleteFiles(m, listing[..|listing| - 1], k);
    }
  }

  /** Entries the listing does not name are left alone. */
  lemma {:induction false} SettledKeepsUnlisted(m: map<string, Bytes>, listing: seq<string>, k: string)
    requires k in m && k !in listing
    ensures k in Settled(m, listing) && Settled(m, listing)[k] == m[k]
  {
    if listing != [] {
      SettledKeepsUnlisted(m, listing[..|listing| - 1], k);
    }
  }

  /** Settling never adds an entry beyond the final names of the partial ones. */
  lemma {:induction false} SettledNamesOnly(m: map<string, Bytes>, listing: seq<string>, k: string)
    requires k in Settled(m, listing)
    ensures k in m || exists n :: n in listing && IsPartial(n) && FinalName(n) == k
  {
    if listing != [] {
      var init := listing[..|listing| - 1];
      var n := listing[|listing| - 1];
      if k in Settled(m, init) {
        SettledNamesOnly(m, init, k);
        if k !in m {
          var n' :| n' in init && IsPartial(n') && FinalName(n') == k;
          assert n' in listing;
        }
      } else {
        assert n in listing;
      }
    }
  }

  /**
   * When no final name is itself partial, settling a complete listing
   * leaves no partial entry, and every partial entry's final name exists
   * (as an entry, unless it is one of the paths every directory has).
   */
  lemma {:induction false} SettledClearsMarkers(m: map<string, Bytes>, listing: seq<string>)
    requires Distinct(listing)
    requires forall n :: n in listing ==> n in m
    requires forall n :: n in listing && IsPartial(n) ==> !IsPartial(FinalName(n))
    ensures forall n :: n in listing && IsPartial(n) ==>
      n !in Settled(m, listing) && (FinalName(n) in Settled(m, listing) || AlwaysExists(FinalName(n)))
  {
    if listing != [] {
      var init := listing[..|listing| - 1];
      var last := listing[|listing| - 1];
      assert forall n :: n in init ==> n in listing;
      assert Distinct(init);
      SettledClearsMarkers(m, init);
      assert last !in init;
      SettledKeepsUnlisted(m, init, last);
      var before := Settled(m, init);
      forall n | n in listing && IsPartial(n)
        ensures n !in Settled(m, listing) && (FinalName(n) in Settled(m, listing) || AlwaysExists(FinalName(n)))
      {
        if n != last {
          assert n in init;
          assert n !in before;
        }
      }
    }
  }

  /** A name that was never there and that no listed partial name settles onto never appears. */
  lemma {:induction false} TargetAbsent(m: map<string, Bytes>, listing: seq<string>, t: string)
    requires t !in m
    requires forall k :: 0 <= k < |listing| && IsPartial(listing[k]) ==> FinalName(listing[k]) != t
    ensures t !in Settled(m, listing)
  {
    if listing != [] {
      var init := listing[..|listing| - 1];
      forall k | 0 <= k < |init| && IsPartial(init[k]) ensures FinalName(init[k]) != t {
        assert init[k] == listing[k];
      }
      TargetAbsent(m, init, t);
    }
  }

  /**
   * A renamed download keeps its bytes: when its final name was free and
   * no other listed partial name settles onto it, that name holds the
   * partial file's content after the loop.
   */
  lemma {:induction false} SettledMovesContent(m: map<string, Bytes>, listing: seq<string>, n: string)
    requires n in m && n in listing && IsPartial(n)
    requires Distinct(listing)
    requires forall k :: 0 <= k < |listing| ==> listing[k] in m
    requires FinalName(n) !in m && !AlwaysExists(FinalName(n))
    requires forall k :: 0 <= k < |listing| && listing[k] != n && IsPartial(listing[k]) ==> FinalName(listing[k]) != FinalName(n)
    ensures FinalName(n) in Settled(m, listing) && Settled(m, listing)[FinalName(n)] == m[n]
  {
    var t := FinalName(n);
    var init := listing[..|listing| - 1];
    var last := listing[|listing| - 1];
    assert listing == init + [last];
    assert Distinct(init) by {
      forall i, j | 0 <= i < j < |init| ensures init[i] != init[j] {
        assert init[i] == listing[i] && init[j] == listing[j];
      }
    }
    if last == n {
      assert n !in init by {
        forall k | 0 <= k < |init| ensures init[k] != n {
          assert init[k] == listing[k];
        }
      }
      SettledKeepsUnlisted(m, init, n);
      forall k | 0 <= k < |init| && IsPartial(init[k]) ensures FinalName(init[k]) != t {
        assert init[k] == listing[k];
      }
      TargetAbsent(m, init, t);
    } else {
      assert n in init;
      forall k | 0 <= k < |init| ensures init[k] in m && (init[k] != n && IsPartial(init[k]) ==> FinalName(init[k]) != t) {
        assert init[k] == listing[k];
      }
      SettledMovesContent(m, init, n);
      assert last != t;
    }
  }

  /**
   * A download named just ".crdownload" settles onto the directory itself,
   * which exists, so it is removed and nothing takes its place.
   */
  lemma BareMarkerIsRemoved(name: string, m: map<string, Bytes>, x: Bytes)
    requires name == InProgress && m == map[name := x]
    ensures Settled(m, [name]) == map[]
  {
    FinalNameOfDownload("");
    assert "" + InProgress == name;
    SettledStep(m, [], name);
    assert [] + [name] == [name];
  }

  /**
   * Without that condition a marker can survive: "f.crdow.crdownloadnload.crdownload"
   * settles onto "f.crdownload", which the loop has already renamed away when
   * the listing names it first, so a partial entry remains after the loop.
   */
  lemma MarkerCanSurvive(a: string, b: string, m: map<string, Bytes>, x: Bytes, y: Bytes)
    requires a == "f" + InProgress && b == "f.crdow" + InProgress + "nload" + InProgress
    requires m == map[a := x, b := y]
    ensures IsPartial(a) && a in Settled(m, [a, b]) && Settled(m, [a, b])[a] == y
  {
    NestedMarkerNames(a, b);
    assert "f" !in m;
    PartialSettlingOntoPartial(m, a, b);
  }

  /** The two names of the counterexample: the second settles onto the first. */
  lemma NestedMarkerNames(a: string, b: string)
    requires a == "f" + InProgress && b == "f.crdow" + InProgress + "nload" + InProgress
    ensures IsPartial(a) && IsPartial(b) && FinalName(a) == "f" && FinalName(b) == a
  {
    SimpleDownloadName(a);
    NestedDownloadName(b);
  }

  lemma SimpleDownloadName(a: string)
    requires a == "f" + InProgress
    ensures IsPartial(a) && FinalName(a) == "f"
  {
    FinalNameOfDownload("f");
  }

  lemma NestedDownloadName(b: string)
    requires b == "f.crdow" + InProgress + "nload" + InProgress
    ensures IsPartial(b) && FinalName(b) == "f" + InProgress
  {
    var p, q := "f.crdow", "nload";
    TwoMarkers(p, q, b);
    assert |p + q| == 12;
    forall k | 0 <= k < 12 ensures (p + q)[k] == ("f" + InProgress)[k] {}
  }

  /** Two markers after two names shorter than the marker: both markers go. */
  lemma TwoMarkers(p: string, q: string, name: string)
    requires |p| < |InProgress| && |q| < |InProgress|
    requires name == p + InProgress + q + InProgress
    ensures IsPartial(name) && FinalName(name) == p + q
  {
    assert name == p + InProgress + (q + InProgress);
    RemoveAllSplit(p, InProgress, q + InProgress);
    RemoveAllSplit(q, InProgress, []);
    assert q + InProgress + [] == q + InProgress;
    assert name[|name| - |InProgress|..] == InProgress;
  }

  /**
   * Whenever a partial name b settles onto another partial name a that the
   * listing visits first, b's content ends up under the partial name a.
   */
  lemma PartialSettlingOntoPartial(m: map<string, Bytes>, a: string, b: string)
    requires a in m && b in m && IsPartial(a) && IsPartial(b)
    requires FinalName(b) == a && FinalName(a) !in m
    ensures IsPartial(a) && a in Settled(m, [a, b]) && Settled(m, [a, b])[a] == m[b]
  {
    FinalNameDiffers(a);
    FinalNameDiffers(b);
    SettledStep(m, [], a);
    assert [] + [a] == [a];
    SettledStep(m, [a], b);
    assert [a] + [b] == [a, b];
    var m1 := Settled(m, [a]);
    assert m1 == SettleOne(m, a);
    assert a !in m1 && b in m1 && m1[b] == m[b];
  }
}
