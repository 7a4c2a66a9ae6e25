/** Label assignment: each eligible window, in snapshot order, takes the next
    character of the configured label alphabet. The raw character is the lookup
    key; the displayed glyph is its upper-case form. */
module Labels {
  import opened Types
  import opened Seqs
  import opened Wrappers

  /** A window together with the alphabet character it was given. */
  datatype Labelled = Labelled(window: Window, key: char)

  datatype LabelError = LabelsExhausted

  /** A window takes a label unless it is the current window and the current
      window is to be ignored. */
  predicate TakesLabel(ignoreCurrent: bool, w: Window)
  {
    !(ignoreCurrent && w.isCurrent)
  }

  function Eligible(ws: seq<Window>, ignoreCurrent: bool): seq<Window>
  {
    Filter(ws, w => TakesLabel(ignoreCurrent, w))
  }

  /** Walks the windows in order, drawing one character per eligible window.
      Running out of characters is a panic in the program, here an error. */
  function AssignLabels(ws: seq<Window>, labels: string, ignoreCurrent: bool): (r: Result<seq<Labelled>, LabelError>)
    ensures r.Success? <==> |Eligible(ws, ignoreCurrent)| <= |labels|
    ensures r.Success? ==>
      && |r.value| == |Eligible(ws, ignoreCurrent)|
      && forall k :: 0 <= k < |r.value| ==> r.value[k] == Labelled(Eligible(ws, ignoreCurrent)[k], labels[k])
    decreases |ws|
  {
    if ws == [] then Success([])
    else if !TakesLabel(ignoreCurrent, ws[0]) then AssignLabels(ws[1..], labels, ignoreCurrent)
    else if labels == [] then Failure(LabelsExhausted)
    else
      match AssignLabels(ws[1..], labels[1..], ignoreCurrent)
      case Success(rest) => Success([Labelled(ws[0], labels[0])] + rest)
      case Failure(e) => Failure(e)
  }

  /** The character-to-address map, built by inserting the entries in order; a
      later insertion under the same key replaces the earlier one. */
  function LabelMap(es: seq<Labelled>): map<char, Address>
  {
    if es == [] then map[]
    else LabelMap(es[..|es| - 1])[es[|es| - 1].key := es[|es| - 1].window.address]
  }

  function Keys(es: seq<Labelled>): seq<char>
  {
    seq(|es|, k requires 0 <= k < |es| => es[k].key)
  }

  /** The map's keys are exactly the characters drawn. */
  lemma {:induction false} LabelMapKeys(es: seq<Labelled>)
    ensures forall c :: c in LabelMap(es) <==> c in Keys(es)
  {
    if es != [] {
      var init := es[..|es| - 1];
      LabelMapKeys(init);
      assert Keys(es) == Keys(init) + [es[|es| - 1].key];
    }
  }

  /** Looking up an entry's key yields that entry's address, unless a later
      entry reused the same key (the later insertion wins). */
  lemma {:induction false} LabelMapLookup(es: seq<Labelled>)
    ensures forall k :: 0 <= k < |es| && (forall j :: k < j < |es| ==> es[j].key != es[k].key) ==>
      es[k].key in LabelMap(es) && LabelMap(es)[es[k].key] == es[k].window.address
  {
    if es != [] {
      var init := es[..|es| - 1];
      LabelMapLookup(init);
      forall k | 0 <= k < |es| - 1 && (forall j :: k < j < |es| ==> es[j].key != es[k].key)
        ensures es[k].key in LabelMap(es) && LabelMap(es)[es[k].key] == es[k].window.address
      {
        assert init[k] == es[k];
        assert forall j :: k < j < |init| ==> init[j].key != init[k].key by {
          forall j | k < j < |init| ensures init[j].key != init[k].key {
            assert init[j] == es[j];
          }
        }
      }
    }
  }

  /** With distinct keys the map has one entry per drawn character. */
  lemma {:induction false} LabelMapSize(es: seq<Labelled>)
    requires Distinct(Keys(es))
    ensures |LabelMap(es)| == |es|
  {
    if es != [] {
      var init := es[..|es| - 1];
      var last := es[|es| - 1];
      assert Keys(init) == Keys(es)[..|es| - 1];
      LabelMapSize(init);
      LabelMapKeys(init);
      forall k | 0 <= k < |init|
        ensures Keys(init)[k] != last.key
      {
        assert Keys(init)[k] == Keys(es)[k];
        assert Keys(es)[|es| - 1] == last.key;
      }
      assert last.key !in LabelMap(init);
    }
  }

  function Addresses(ws: seq<Window>): seq<Address>
  {
    seq(|ws|, k requires 0 <= k < |ws| => ws[k].address)
  }

  /** With a duplicate-free alphabet long enough for the eligible windows, the
      map holds exactly one entry per eligible window: the k-th eligible window
      is found under the k-th character, and no other character is a key. */
  lemma {:induction false} AssignedMap(ws: seq<Window>, labels: string, ignoreCurrent: bool)
    requires Distinct(labels)
    requires |Eligible(ws, ignoreCurrent)| <= |labels|
    ensures AssignLabels(ws, labels, ignoreCurrent).Success?
    ensures var e := Eligible(ws, ignoreCurrent);
      var m := LabelMap(AssignLabels(ws, labels, ignoreCurrent).value);
      && |m| == |e|
      && (forall c :: c in m <==> c in labels[..|e|])
      && (forall k :: 0 <= k < |e| ==> labels[k] in m && m[labels[k]] == e[k].address)
  {
    LabelsToMap(labels, Eligible(ws, ignoreCurrent), AssignLabels(ws, labels, ignoreCurrent).value);
  }

  /** The map built from the k-th window paired with the k-th character, for a
      duplicate-free alphabet. */
  lemma LabelsToMap(labels: string, e: seq<Window>, es: seq<Labelled>)
    requires Distinct(labels)
    requires |es| == |e| <= |labels|
    requires forall k :: 0 <= k < |es| ==> es[k] == Labelled(e[k], labels[k])
    ensures var m := LabelMap(es);
      && |m| == |e|
      && (forall c :: c in m <==> c in labels[..|e|])
      && (forall k :: 0 <= k < |e| ==> labels[k] in m && m[labels[k]] == e[k].address)
  {
    assert Keys(es) == labels[..|e|];
    LabelMapDistinct(es);
  }

  /** With distinct keys, the map has one entry per labelled window, its keys
      are the drawn characters, and each finds its own window's address. */
  lemma LabelMapDistinct(es: seq<Labelled>)
    requires Distinct(Keys(es))
    ensures |LabelMap(es)| == |es|
    ensures forall c :: c in LabelMap(es) <==> c in Keys(es)
    ensures forall k :: 0 <= k < |es| ==> es[k].key in LabelMap(es) && LabelMap(es)[es[k].key] == es[k].window.address
  {
    LabelMapKeys(es);
    LabelMapSize(es);
    LabelMapLookupDistinct(es);
  }

  lemma {:induction false} LabelMapLookupDistinct(es: seq<Labelled>)
    requires Distinct(Keys(es))
    ensures forall k :: 0 <= k < |es| ==> es[k].key in LabelMap(es) && LabelMap(es)[es[k].key] == es[k].window.address
  {
    if es != [] {
      var init := es[..|es| - 1];
      var last := es[|es| - 1];
      assert Keys(init) == Keys(es)[..|es| - 1];
      LabelMapLookupDistinct(init);
      forall k | 0 <= k < |init|
        ensures es[k].key in LabelMap(es) && LabelMap(es)[es[k].key] == es[k].window.address
      {
        assert init[k] == es[k];
        assert Keys(es)[k] != Keys(es)[|es| - 1];
      }
    }
  }

  /** Windows that take labels keep the snapshot's distinct addresses. */
  lemma EligibleAddressesDistinct(ws: seq<Window>, ignoreCurrent: bool)
    requires Distinct(Addresses(ws))
    ensures Distinct(Addresses(Eligible(ws, ignoreCurrent)))
  {
    var e := Eligible(ws, ignoreCurrent);
    var idx := FilterIndices(ws, w => TakesLabel(ignoreCurrent, w));
    forall a, b | 0 <= a < b < |e|
      ensures e[a].address != e[b].address
    {
      assert idx[a] < idx[b];
      assert Addresses(ws)[idx[a]] != Addresses(ws)[idx[b]];
    }
  }

  /** When the snapshot's addresses are distinct (as the compositor guarantees),
      no address is reachable under two different characters. */
  lemma {:induction false} AssignedMapInjective(ws: seq<Window>, labels: string, ignoreCurrent: bool)
    requires Distinct(labels)
    requires Distinct(Addresses(ws))
    requires |Eligible(ws, ignoreCurrent)| <= |labels|
    ensures AssignLabels(ws, labels, ignoreCurrent).Success?
    ensures var m := LabelMap(AssignLabels(ws, labels, ignoreCurrent).value);
      forall c1, c2 :: c1 in m && c2 in m && c1 != c2 ==> m[c1] != m[c2]
  {
    var e := Eligible(ws, ignoreCurrent);
    EligibleAddressesDistinct(ws, ignoreCurrent);
    LabelsToMapInjective(labels, e, AssignLabels(ws, labels, ignoreCurrent).value);
  }

  lemma LabelsToMapInjective(labels: string, e: seq<Window>, es: seq<Labelled>)
    requires Distinct(labels)
    requires Distinct(Addresses(e))
    requires |es| == |e| <= |labels|
    requires forall k :: 0 <= k < |es| ==> es[k] == Labelled(e[k], labels[k])
    ensures var m := LabelMap(es);
      forall c1, c2 :: c1 in m && c2 in m && c1 != c2 ==> m[c1] != m[c2]
  {
    LabelsToMap(labels, e, es);
    var keys := labels[..|e|];
    InjectiveByPosition(LabelMap(es), keys, Addresses(e));
  }

  /** A map whose keys are listed with their values at matching positions is
      injective when the listed values are distinct. */
  lemma InjectiveByPosition(m: map<char, Address>, keys: seq<char>, values: seq<Address>)
    requires |keys| == |values|
    requires forall c :: c in m <==> c in keys
    requires forall k :: 0 <= k < |keys| ==> keys[k] in m && m[keys[k]] == values[k]
    requires Distinct(values)
    ensures forall c1, c2 :: c1 in m && c2 in m && c1 != c2 ==> m[c1] != m[c2]
  {
    forall c1, c2 | c1 in m && c2 in m && c1 != c2
      ensures m[c1] != m[c2]
    {
      var a :| 0 <= a < |keys| && keys[a] == c1;
      var b :| 0 <= b < |keys| && keys[b] == c2;
      assert a != b;
    }
  }

  /** Letters in either case; no other character is case-transformed. */
  predicate IsAlphabetic(c: char)
  {
    'a' <= c <= 'z' || 'A' <= c <= 'Z'
  }

  /** Position of a letter in the alphabet, ignoring case. */
  function LetterIndex(c: char): int
    requires IsAlphabetic(c)
  {
    if 'a' <= c <= 'z' then c as int - 'a' as int else c as int - 'A' as int
  }

  /** The glyph shown for a drawn character: the capital of the same letter
      when it is a letter, otherwise the character itself. */
  function Glyph(c: char): (g: char)
    ensures IsAlphabetic(g) <==> IsAlphabetic(c)
    ensures !IsAlphabetic(c) ==> g == c
    ensures IsAlphabetic(c) ==> 'A' <= g <= 'Z' && LetterIndex(g) == LetterIndex(c)
  {
    if 'a' <= c <= 'z' then (c as int - 32) as char else c
  }
}
