/**
 * The payload builders of `utils/helpers.py`, with the random choices made
 * explicit: `random.randint(lo, hi)` becomes a draw `d` with
 * `0 <= d <= hi - lo` (the value is `lo + d`), and `random.choice(words)`
 * becomes an index into `words`.
 */
module Helpers {
  import opened Text

  const Brands: seq<string> :=
    ["iPhone", "Samsung", "Xiaomi", "MacBook", "PlayStation", "Nike", "BMW", "Toyota", "Sony", "Canon"]
  const Models: seq<string> :=
    ["15 Pro", "S24 Ultra", "14T Pro", "Air M2", "5", "Air Force 1", "X5", "Camry", "A7", "EOS R5"]
  const Conditions: seq<string> :=
    ["новый", "б/у", "в идеале", "срочно", "торг", "2024 года", ""]

  /** The seller id range: exactly the seven-digit numbers. */
  const SellerIdLow: int := 1000000
  const SellerIdHigh: int := 9999999

  /** The longest name the builder can produce: "PlayStation Air Force 1 2024 года". */
  const LongestName: nat := 33

  /** The name length the service is expected to reject (the known defect probed with 300 characters). */
  const ServiceNameLimit: nat := 255

  /** `random.randint(lo, hi)` with the draw passed in. */
  function RandInt(lo: int, hi: int, draw: nat): (r: int)
    requires draw <= hi - lo
    ensures lo <= r <= hi
  {
    lo + draw
  }

  /** Every value in [lo, hi] comes from exactly one draw. */
  lemma RandIntOneToOne(lo: int, hi: int, v: int)
    requires lo <= v <= hi
    ensures RandInt(lo, hi, v - lo) == v
    ensures forall d: nat :: d <= hi - lo && RandInt(lo, hi, d) == v ==> d == v - lo
  {
  }

  /** `generate_unique_seller_id()`. */
  function SellerId(draw: nat): (r: int)
    requires draw <= SellerIdHigh - SellerIdLow
    ensures SellerIdLow <= r <= SellerIdHigh
  {
    RandInt(SellerIdLow, SellerIdHigh, draw)
  }

  // ---------------------------------------------------------------------------
  // Decimal notation, to say "seven-digit number"

  function Pow10(k: nat): (r: nat)
    ensures r >= 1
  {
    if k == 0 then 1 else 10 * Pow10(k - 1)
  }

  /** `str(n)` for a natural number n. */
  function DecimalString(n: nat): (r: string)
    ensures |r| >= 1
    ensures forall i :: 0 <= i < |r| ==> '0' <= r[i] <= '9'
  {
    var digit := ('0' as int + n % 10) as char;
    if n < 10 then [digit] else DecimalString(n / 10) + [digit]
  }

  /** A number in [10^(k-1), 10^k) is written with exactly k digits. */
  lemma {:induction false} DecimalLength(n: nat, k: nat)
    requires 1 <= k
    requires Pow10(k - 1) <= n < Pow10(k)
    ensures |DecimalString(n)| == k
    decreases k
  {
    if k > 1 {
      assert Pow10(k - 1) == 10 * Pow10(k - 2);
      assert n >= 10;
      DecimalLength(n / 10, k - 1);
    }
  }

  /** Every generated seller id is a seven-digit number. */
  lemma SellerIdSevenDigits(draw: nat)
    requires draw <= SellerIdHigh - SellerIdLow
    ensures |DecimalString(SellerId(draw))| == 7
  {
    assert Pow10(6) == 1000000 && Pow10(7) == 10000000;
    DecimalLength(SellerId(draw), 7);
  }

  /** Every seven-digit number is the seller id of exactly one draw. */
  lemma SellerIdCovers(id: int)
    requires SellerIdLow <= id <= SellerIdHigh
    ensures SellerId(id - SellerIdLow) == id
    ensures forall d: nat :: d <= SellerIdHigh - SellerIdLow && SellerId(d) == id ==> d == id - SellerIdLow
  {
  }

  // ---------------------------------------------------------------------------
  // generate_name

  predicate ValidChoice(b: int, m: int, c: int)
  {
    0 <= b < |Brands| && 0 <= m < |Models| && 0 <= c < |Conditions|
  }

  /** `generate_name()`: brand, model and condition joined by single spaces, then stripped. */
  function Name(b: nat, m: nat, c: nat): (r: string)
    requires ValidChoice(b, m, c)
    ensures |r| <= |Brands[b]| + |Models[m]| + |Conditions[c]| + 2
  {
    Strip(Brands[b] + " " + Models[m] + " " + Conditions[c])
  }

  /** Facts about the fixed word lists: brands and models are non-empty, no
      entry of any list has leading or trailing whitespace, and the longest
      entries have 11, 11 and 9 characters. */
  lemma WordLists()
    ensures forall i :: 0 <= i < |Brands| ==> Brands[i] != [] && Unpadded(Brands[i]) && |Brands[i]| <= 11
    ensures forall i :: 0 <= i < |Models| ==> Models[i] != [] && Unpadded(Models[i]) && |Models[i]| <= 11
    ensures forall i :: 0 <= i < |Conditions| ==> Unpadded(Conditions[i]) && |Conditions[i]| <= 9
  {
  }

  /** The word-list facts for one choice of brand, model and condition. */
  lemma ChosenWords(b: nat, m: nat, c: nat)
    requires ValidChoice(b, m, c)
    ensures Brands[b] != [] && Unpadded(Brands[b]) && |Brands[b]| <= 11
    ensures Models[m] != [] && Unpadded(Models[m]) && |Models[m]| <= 11
    ensures Unpadded(Conditions[c]) && |Conditions[c]| <= 9
  {
    WordLists();
  }

  /** `f"{brand} {model} {cond}".strip()` for unpadded words: with an empty
      condition the trailing separator goes, otherwise nothing changes. */
  lemma {:induction false} JoinedWords(brand: string, model: string, cond: string)
    requires brand != [] && Unpadded(brand)
    requires model != [] && Unpadded(model)
    requires Unpadded(cond)
    ensures cond == "" ==> Strip(brand + " " + model + " " + cond) == brand + " " + model
    ensures cond != "" ==> Strip(brand + " " + model + " " + cond) == brand + " " + model + " " + cond
  {
    var head := brand + " " + model;
    UnpaddedJoin(brand, model);
    if cond == "" {
      assert head + " " + cond == head + " ";
      StripTrailingSpace(head);
    } else {
      UnpaddedJoin(head, cond);
      StripUnpadded(head + " " + cond);
    }
  }

  /** The joined and stripped words begin with "brand model", are non-empty
      and unpadded. */
  lemma {:induction false} JoinedWordsWellFormed(brand: string, model: string, cond: string)
    requires brand != [] && Unpadded(brand)
    requires model != [] && Unpadded(model)
    requires Unpadded(cond)
    ensures var r := Strip(brand + " " + model + " " + cond);
            var head := brand + " " + model;
            && r != [] && Unpadded(r)
            && |head| <= |r| && r[..|head|] == head
  {
    JoinedWords(brand, model, cond);
    var r := Strip(brand + " " + model + " " + cond);
    var head := brand + " " + model;
    if cond != "" {
      assert r == head + (" " + cond);
    } else {
      assert r == head;
    }
  }

  /** With an empty condition the trailing separator is stripped and the name
      is "brand model"; otherwise `strip` changes nothing and the name is
      "brand model condition". */
  lemma NameShape(b: nat, m: nat, c: nat)
    requires ValidChoice(b, m, c)
    ensures Conditions[c] == "" ==> Name(b, m, c) == Brands[b] + " " + Models[m]
    ensures Conditions[c] != "" ==> Name(b, m, c) == Brands[b] + " " + Models[m] + " " + Conditions[c]
  {
    ChosenWords(b, m, c);
    JoinedWords(Brands[b], Models[m], Conditions[c]);
  }

  /** A generated name starts with the brand, one space and the model, is
      non-empty, and has no leading or trailing whitespace. */
  lemma NameWellFormed(b: nat, m: nat, c: nat)
    requires ValidChoice(b, m, c)
    ensures var r := Name(b, m, c);
            var head := Brands[b] + " " + Models[m];
            && r != [] && Unpadded(r)
            && |head| <= |r| && r[..|head|] == head
  {
    ChosenWords(b, m, c);
    JoinedWordsWellFormed(Brands[b], Models[m], Conditions[c]);
  }

  /** No generated name is longer than 33 characters, far below the 255 the
      service should enforce. */
  lemma NameLength(b: nat, m: nat, c: nat)
    requires ValidChoice(b, m, c)
    ensures |Name(b, m, c)| <= LongestName < ServiceNameLimit
  {
    ChosenWords(b, m, c);
  }

  /** The bound is tight: "PlayStation Air Force 1 2024 года" has 33 characters. */
  lemma NameLongest()
    ensures ValidChoice(4, 5, 5) && |Name(4, 5, 5)| == LongestName
  {
    var b, m, c := 4, 5, 5;
    var brand, model, cond := Brands[b], Models[m], Conditions[c];
    assert |brand| == 11 && |model| == 11 && |cond| == 9;
    ChosenWords(b, m, c);
    JoinedWords(brand, model, cond);
  }
}
