/** The fallback simplified-to-traditional converter: a fixed table of single
    characters, each replaced globally, one table entry after the other. */
module ScriptConversion {
  import opened Strings
  import opened Patterns

  /** Number of entries `Object.entries` yields for the conversion table. The object
      literal writes 50 properties, but `发` and `计` are each written twice with the
      same value, so the object holds 48. */
  const Count: nat := 48

  /** The `i`-th `[simplified, traditional]` pair of `Object.entries(conversionMap)`:
      keys in order of first appearance in the literal. */
  function Entry(i: nat): (char, char)
    requires i < Count
  {
    if i < 24 then
      match i
        case 0 => ('这', '這')
        case 1 => ('个', '個')
        case 2 => ('说', '說')
        case 3 => ('时', '時')
        case 4 => ('会', '會')
        case 5 => ('来', '來')
        case 6 => ('对', '對')
        case 7 => ('们', '們')
        case 8 => ('国', '國')
        case 9 => ('经', '經')
        case 10 => ('过', '過')
        case 11 => ('现', '現')
        case 12 => ('发', '發')
        case 13 => ('应', '應')
        case 14 => ('样', '樣')
        case 15 => ('还', '還')
        case 16 => ('没', '沒')
        case 17 => ('问', '問')
        case 18 => ('题', '題')
        case 19 => ('间', '間')
        case 20 => ('关', '關')
        case 21 => ('系', '係')
        case 22 => ('实', '實')
        case 23 => ('际', '際')
    else
      match i
        case 24 => ('认', '認')
        case 25 => ('为', '為')
        case 26 => ('学', '學')
        case 27 => ('习', '習')
        case 28 => ('电', '電')
        case 29 => ('脑', '腦')
        case 30 => ('网', '網')
        case 31 => ('络', '絡')
        case 32 => ('计', '計')
        case 33 => ('算', '算')
        case 34 => ('机', '機')
        case 35 => ('数', '數')
        case 36 => ('据', '據')
        case 37 => ('库', '庫')
        case 38 => ('软', '軟')
        case 39 => ('件', '件')
        case 40 => ('开', '開')
        case 41 => ('程', '程')
        case 42 => ('序', '序')
        case 43 => ('设', '設')
        case 44 => ('语', '語')
        case 45 => ('言', '言')
        case 46 => ('技', '技')
        case 47 => ('术', '術')
  }

  /** The first entry at or after `i` whose key is `c`. */
  function Search(c: char, i: nat): (r: Option<nat>)
    requires i <= Count
    decreases Count - i
    ensures r.Some? ==> i <= r.value < Count && Entry(r.value).0 == c
    ensures r.None? ==> forall j :: i <= j < Count ==> Entry(j).0 != c
  {
    if i == Count then None
    else if Entry(i).0 == c then Some(i)
    else Search(c, i + 1)
  }

  /** The entry for key `c`, if `c` is a key of the table: the object's property lookup. */
  function Lookup(c: char): Option<nat> {
    Search(c, 0)
  }

  /** No two of the entries `lo..hi` and the others share a key. */
  predicate Distinct(lo: nat, hi: nat)
    requires lo <= hi <= Count
  {
    forall i, j :: lo <= i < hi && 0 <= j < Count && Entry(i).0 == Entry(j).0 ==> i == j
  }

  /** The value of an entry among `lo..hi` is the key of no other entry: the values that
      are keys at all (`算 件 程 序 言 技`) are their own keys. */
  predicate Stable(lo: nat, hi: nat)
    requires lo <= hi <= Count
  {
    forall i, j :: lo <= i < hi && 0 <= j < Count && Entry(i).1 == Entry(j).0 ==> i == j
  }

  lemma Distinct0() ensures Distinct(0, 6) { }
  lemma Stable0() ensures Stable(0, 6) { }
  lemma Distinct1() ensures Distinct(6, 12) { }
  lemma Stable1() ensures Stable(6, 12) { }
  lemma Distinct2() ensures Distinct(12, 18) { }
  lemma Stable2() ensures Stable(12, 18) { }
  lemma Distinct3() ensures Distinct(18, 24) { }
  lemma Stable3() ensures Stable(18, 24) { }
  lemma Distinct4() ensures Distinct(24, 30) { }
  lemma Stable4() ensures Stable(24, 30) { }
  lemma Distinct5() ensures Distinct(30, 36) { }
  lemma Stable5() ensures Stable(30, 36) { }
  lemma Distinct6() ensures Distinct(36, 42) { }
  lemma Stable6() ensures Stable(36, 42) { }
  lemma Distinct7() ensures Distinct(42, 48) { }
  lemma Stable7() ensures Stable(42, 48) { }

  /** The table's keys are distinct and its values settled, checked six entries at a
      time. */
  lemma TableSettled()
    ensures Distinct(0, Count) && Stable(0, Count)
  {
    Distinct0(); Distinct1(); Distinct2(); Distinct3();
    Distinct4(); Distinct5(); Distinct6(); Distinct7();
    Stable0(); Stable1(); Stable2(); Stable3(); Stable4(); Stable5(); Stable6(); Stable7();
  }

  /** A lookup finds an entry exactly when that entry's key is the character. */
  lemma LookupExact(c: char, i: nat)
    requires i < Count
    ensures Lookup(c) == Some(i) <==> Entry(i).0 == c
  {
    TableSettled();
    assert Distinct(0, Count);
  }

  /** One character through the table: its traditional form if it is a key. */
  function ConvertChar(c: char): char {
    match Lookup(c)
    case Some(i) => Entry(i).1
    case None => c
  }

  /** The conversion as a function of the text: every character looked up on its own. */
  function Convert(text: string): string {
    seq(|text|, j requires 0 <= j < |text| => ConvertChar(text[j]))
  }

  /** A character after the first `n` replacement passes: converted if its entry is
      among them, unchanged otherwise. */
  function Partial(c: char, n: nat): char
    requires n <= Count
  {
    match Lookup(c)
    case Some(i) => if i < n then Entry(i).1 else c
    case None => c
  }

  /** One global replacement `Entry(n)` takes every character from `Partial(c, n)` to
      `Partial(c, n + 1)`: a character converted by an earlier pass is never the key
      of a later one with a different value. */
  lemma PartialStep(c: char, n: nat)
    requires n < Count
    ensures var d := Partial(c, n);
      (if d == Entry(n).0 then Entry(n).1 else d) == Partial(c, n + 1)
  {
    TableSettled();
    assert Distinct(0, Count) && Stable(0, Count);
  }

  /** `basicSimplifiedToTraditional`: each table entry in turn, replaced globally. */
  method BasicSimplifiedToTraditional(text: string) returns (result: string)
    ensures result == Convert(text)
  {
    result := text;
    for n := 0 to Count
      invariant |result| == |text|
      invariant forall j :: 0 <= j < |text| ==> result[j] == Partial(text[j], n)
    {
      var (simplified, traditional) := Entry(n);
      ReplaceCharFrom(result, simplified, traditional, 0);
      assert result[0..] == result;
      forall j | 0 <= j < |text|
        ensures Swap(result, simplified, traditional)[j] == Partial(text[j], n + 1)
      {
        PartialStep(text[j], n);
      }
      result := ReplaceAll(Literal([simplified], [traditional]), result);
    }
  }

  /** Converting twice is converting once: no traditional character is itself
      converted further. */
  lemma ConvertCharIdempotent(c: char)
    ensures ConvertChar(ConvertChar(c)) == ConvertChar(c)
  {
    TableSettled();
    assert Stable(0, Count);
  }

  lemma ConvertIdempotent(text: string)
    ensures Convert(Convert(text)) == Convert(text)
  {
    forall j | 0 <= j < |text| ensures Convert(Convert(text))[j] == Convert(text)[j] {
      ConvertCharIdempotent(text[j]);
    }
  }

  /** After conversion no character remains that the table would still change, and
      every character that is not a key is left where it was. */
  lemma ConvertSpec(text: string)
    ensures |Convert(text)| == |text|
    ensures forall j :: 0 <= j < |text| ==> ConvertChar(Convert(text)[j]) == Convert(text)[j]
    ensures forall j :: 0 <= j < |text| && Lookup(text[j]).None? ==> Convert(text)[j] == text[j]
    ensures forall j :: 0 <= j < |text| && Lookup(text[j]).Some? ==>
      Convert(text)[j] == Entry(Lookup(text[j]).value).1
  {
    forall j | 0 <= j < |text| ensures ConvertChar(Convert(text)[j]) == Convert(text)[j] {
      ConvertCharIdempotent(text[j]);
    }
  }
}
