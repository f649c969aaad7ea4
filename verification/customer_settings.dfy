/** The customer list of the settings page (`client/src/pages/Settings.tsx`):
    loading, the three editing handlers and the clean-up on save. */
module CustomerSettings {
  import opened Wrappers
  import opened Json
  import Seqs
  import Text
  import SD = SettingsDefaults

  /** Why the stored list cannot be used: the page parses it without a guard. */
  datatype LoadError = Unparseable | NotAStringList

  /** `JSON.parse(localStorage.getItem('customerList') || '[]')`. Nothing
      stored reads as the empty list; text that does not parse throws; a
      value other than a list of strings fails as soon as it is used. */
  function Load(stored: SD.Stored): (r: Result<seq<string>, LoadError>)
    ensures stored.Absent? ==> r == Ok([])
    ensures stored.Malformed? ==> r == Err(Unparseable)
    ensures r.Ok? && stored.Parsed? ==> Strings(r.value) == stored.value
  {
    match stored
    case Absent => Ok([])
    case Malformed => Err(Unparseable)
    case Parsed(v) =>
      if v.JArr? && forall i :: 0 <= i < |v.items| ==> v.items[i].JStr? then
        var xs := seq(|v.items|, i requires 0 <= i < |v.items| => v.items[i].s);
        assert Strings(xs).items == v.items;
        Ok(xs)
      else Err(NotAStringList)
  }

  /** `addCustomer`: an empty entry at the end. */
  function AddCustomer(list: seq<string>): (r: seq<string>)
    ensures |r| == |list| + 1 && r[..|list|] == list && r[|list|] == ""
  {
    list + [""]
  }

  /** `removeCustomer(index)`: every entry except the one at `index`. */
  function RemoveCustomer(list: seq<string>, index: int): (r: seq<string>)
    ensures 0 <= index < |list| ==> |r| == |list| - 1 && r == list[..index] + list[index + 1..]
    ensures !(0 <= index < |list|) ==> r == list
  {
    Seqs.RemoveAt(list, index)
  }

  /** `updateCustomer(index, value)`: only the entry at `index` changes. */
  function UpdateCustomer(list: seq<string>, index: nat, value: string): (r: seq<string>)
    requires index < |list|
    ensures |r| == |list| && r[index] == value
    ensures forall i :: 0 <= i < |list| && i != index ==> r[i] == list[i]
  {
    list[index := value]
  }

  /** `customerList.map(c => c.trim()).filter(Boolean)`. */
  function SaveCustomers(list: seq<string>): (r: seq<string>)
    ensures |r| <= |list|
    ensures forall i :: 0 <= i < |r| ==> r[i] != "" && Text.IsTrimmed(r[i])
    ensures forall x :: x in r <==> x != "" && exists c :: c in list && Text.Trim(c) == x
  {
    var trimmed := Seqs.Map(list, Text.Trim);
    forall i | 0 <= i < |trimmed| ensures Text.IsTrimmed(trimmed[i]) {
      Text.TrimProperties(list[i]);
    }
    Seqs.MapMembers(list, Text.Trim);
    Seqs.Filter(trimmed, Text.NonEmpty)
  }

  /** Saving keeps the order of the names it keeps. */
  lemma SaveKeepsOrder(list: seq<string>)
    ensures Seqs.IsSubsequence(SaveCustomers(list), Seqs.Map(list, Text.Trim))
  {
    Seqs.FilterIsSubsequence(Seqs.Map(list, Text.Trim), Text.NonEmpty);
  }

  /** Saving a saved list changes nothing. */
  lemma {:induction false} SaveIdempotent(list: seq<string>)
    ensures SaveCustomers(SaveCustomers(list)) == SaveCustomers(list)
  {
    var saved := SaveCustomers(list);
    forall i | 0 <= i < |saved| ensures Text.Trim(saved[i]) == saved[i] {
      Text.TrimProperties(saved[i]);
    }
    assert Seqs.Map(saved, Text.Trim) == saved;
    Seqs.FilterKeepsAll(saved, Text.NonEmpty);
  }

  /** What is saved is what the page loads next time. */
  lemma SaveThenLoad(list: seq<string>)
    ensures Load(SD.Parsed(Strings(SaveCustomers(list)))) == Ok(SaveCustomers(list))
  {
    var saved := SaveCustomers(list);
    var v := Strings(saved);
    assert forall i :: 0 <= i < |v.items| ==> v.items[i].JStr?;
    var xs := seq(|v.items|, i requires 0 <= i < |v.items| => v.items[i].s);
    assert xs == saved;
  }
}
