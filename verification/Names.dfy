/** Names of UIDs: numbered sequences, pairs, and both together (Utility.cpp and Utility.hpp). */
module Names {
  import opened Common
  import opened Values
  import opened Methods
  import opened UidText
  import opened TwoWay
  import TypedJson

  //
  // Decimal numbers
  //

  predicate IsDecimal(c: Octet) {
    '0' <= c <= '9'
  }

  predicate AllDecimal(t: Text) {
    forall i :: 0 <= i < |t| ==> IsDecimal(t[i])
  }

  function DecimalDigit(d: nat): Octet
    requires d < 10
  {
    (48 + d) as char
  }

  /** std::format of an unsigned number. */
  function Decimal(n: nat): (t: Text)
    ensures AllDecimal(t) && t != []
  {
    if n < 10 then [DecimalDigit(n)] else Decimal(n / 10) + [DecimalDigit(n % 10)]
  }

  function DecimalValue(t: Text): nat
    requires AllDecimal(t)
  {
    if t == [] then 0 else 10 * DecimalValue(t[..|t| - 1]) + (t[|t| - 1] as int - 48)
  }

  /** std::stoll of a string of digits. */
  function ParseDecimal(t: Text): Result<nat> {
    if t == [] || !AllDecimal(t) then Err(InvalidArgument)
    else if DecimalValue(t) >= TWO_TO_64 / 2 then Err(OutOfRange)
    else Ok(DecimalValue(t))
  }

  lemma {:induction false} DecimalRoundTrip(n: nat)
    ensures DecimalValue(Decimal(n)) == n
  {
    if n >= 10 {
      DecimalRoundTrip(n / 10);
      assert Decimal(n)[..|Decimal(n)| - 1] == Decimal(n / 10);
    } else {
      assert Decimal(n)[..0] == [];
    }
  }

  function WithoutLeadingZeros(t: Text): Text {
    if |t| > 1 && t[0] == '0' then WithoutLeadingZeros(t[1..]) else t
  }

  lemma {:induction false} LeadingZero(t: Text)
    requires AllDecimal(t) && t != [] && t[0] == '0'
    ensures DecimalValue(t) == DecimalValue(t[1..])
    decreases |t|
  {
    if |t| == 1 {
      assert t[..0] == [];
    } else {
      var n := |t| - 1;
      LeadingZero(t[..n]);
      assert t[..n][1..] == t[1..][..n - 1];
    }
  }

  /** A string of digits that starts with no superfluous zero is how its value is printed. */
  lemma {:induction false} CanonicalDecimal(t: Text)
    requires AllDecimal(t) && t != [] && (|t| == 1 || t[0] != '0')
    ensures Decimal(DecimalValue(t)) == t
    ensures t[0] != '0' ==> DecimalValue(t) > 0
    decreases |t|
  {
    var n := |t| - 1;
    var last := t[n] as int - 48;
    assert DecimalDigit(last) == t[n];
    if n == 0 {
      assert t[..0] == [];
    } else {
      CanonicalDecimal(t[..n]);
      var high := DecimalValue(t[..n]);
      assert high > 0;
      assert (10 * high + last) / 10 == high && (10 * high + last) % 10 == last;
      assert t == t[..n] + [t[n]];
    }
  }

  lemma {:induction false} PrintedValue(t: Text)
    requires AllDecimal(t) && t != []
    ensures Decimal(DecimalValue(t)) == WithoutLeadingZeros(t)
    decreases |t|
  {
    if |t| > 1 && t[0] == '0' {
      LeadingZero(t);
      PrintedValue(t[1..]);
    } else {
      CanonicalDecimal(t);
    }
  }

  //
  // Sequences
  //

  /** Names for count UIDs from a base on; the format is its text before and behind the number. */
  datatype NameSequence = NameSequence(base: UID, start: uint64, count: uint64, prefix: Text, suffix: Text)

  /**
   * The numbers stay in the range of int64_t, and the UIDs on one side of 2^63, so that no signed difference of two
   * of them overflows.
   */
  predicate Proper(s: NameSequence) {
    && s.count < TWO_TO_64 / 2 && s.start + s.count <= TWO_TO_64 / 2
    && (s.base + s.count <= TWO_TO_64 / 2 || (s.base >= TWO_TO_64 / 2 && s.base + s.count <= TWO_TO_64))
  }

  function FormatName(s: NameSequence, digits: Text): Text {
    s.prefix + digits + s.suffix
  }

  function SequenceName(s: NameSequence, uid: UID): Option<Text> {
    var index := Cast(I64, uid) - Cast(I64, s.base);
    if 0 <= index < Cast(I64, s.count) then Some(FormatName(s, Decimal((index + s.start) % TWO_TO_64))) else None
  }

  /** The text that a match of the format with digits in place of the number captures. */
  function Captured(s: NameSequence, name: Text): Option<Text> {
    if |name| < |s.prefix| + |s.suffix| then None
    else
      var digits := name[|s.prefix|..|name| - |s.suffix|];
      if name == FormatName(s, digits) && AllDecimal(digits) then Some(digits) else None
  }

  function SequenceUid(s: NameSequence, name: Text): Option<UID> {
    var digits := Captured(s, name);
    if digits.None? then None else
    var number := ParseDecimal(digits.value);
    if number.Err? then None else
    var index := number.value - Cast(I64, s.start);
    if 0 <= index < Cast(I64, s.count) then Some((s.base + index) % TWO_TO_64) else None
  }

  lemma CapturesItself(s: NameSequence, digits: Text)
    requires AllDecimal(digits)
    ensures Captured(s, FormatName(s, digits)) == Some(digits)
  {
    var name := FormatName(s, digits);
    assert name[|s.prefix|..|name| - |s.suffix|] == digits;
  }

  /** A UID has a name in a sequence exactly if it is one of its UIDs. */
  lemma NamedIff(s: NameSequence, uid: UID)
    requires Proper(s)
    ensures SequenceName(s, uid).Some? <==> s.base <= uid < s.base + s.count
  {
    hide Decimal, FormatName;
    CountIsExact(s);
    if s.base <= uid < s.base + s.count {
      IndexIsExact(s, uid);
    }
  }

  /** Parsing the printed name of any UID of the sequence returns that UID. */
  lemma SequenceRoundTrip(s: NameSequence, uid: UID)
    requires Proper(s) && s.base <= uid < s.base + s.count
    ensures SequenceName(s, uid).Some? && SequenceUid(s, SequenceName(s, uid).value) == Some(uid)
  {
    hide Decimal, DecimalValue, Captured, FormatName, Cast;
    var index := uid - s.base;
    assert s.base + index == uid;
    IndexIsExact(s, uid);
    DecimalRoundTrip(index + s.start);
    CapturesItself(s, Decimal(index + s.start));
  }

  lemma CountIsExact(s: NameSequence)
    requires Proper(s)
    ensures Cast(I64, s.count) == s.count
    ensures s.count > 0 ==> Cast(I64, s.start) == s.start
  {
  }

  lemma IndexIsExact(s: NameSequence, uid: UID)
    requires Proper(s) && s.base <= uid < s.base + s.count
    ensures Cast(I64, uid) - Cast(I64, s.base) == uid - s.base
    ensures Cast(I64, s.start) == s.start && Cast(I64, s.count) == s.count
  {
  }

  /**
   * A name is accepted as a UID of the sequence exactly if it has the form of the format around some digits, leading
   * zeros allowed, whose number has the place in the sequence that the UID has.
   */
  lemma AcceptedIff(s: NameSequence, name: Text, uid: UID)
    requires Proper(s)
    ensures SequenceUid(s, name) == Some(uid) <==>
      && s.base <= uid < s.base + s.count
      && Captured(s, name).Some? && Captured(s, name).value != []
      && DecimalValue(Captured(s, name).value) == s.start + (uid - s.base)
  {
    hide DecimalValue, FormatName, Cast;
    CountIsExact(s);
  }

  /** The UID's own name is the accepted one without leading zeros. */
  lemma AcceptedName(s: NameSequence, name: Text)
    requires Proper(s) && SequenceUid(s, name).Some?
    ensures Captured(s, name).Some? && name == FormatName(s, Captured(s, name).value)
    ensures SequenceName(s, SequenceUid(s, name).value)
            == Some(FormatName(s, WithoutLeadingZeros(Captured(s, name).value)))
  {
    hide Decimal, DecimalValue, FormatName, WithoutLeadingZeros, Cast;
    var uid, digits := SequenceUid(s, name).value, Captured(s, name).value;
    AcceptedIff(s, name, uid);
    IndexIsExact(s, uid);
    PrintedValue(digits);
  }

  //
  // Pairs and sequences
  //

  /** The finder's two maps and its sequences, which are tried in order. */
  class NameAndUidFinder {
    var names: Lookups<UID, Text>
    var sequences: seq<NameSequence>

    ghost function View(): Finder
      reads this
    {
      Finder(names, sequences)
    }

    constructor Empty()
      ensures View() == Finder(Nothing(), [])
    {
      names, sequences := Nothing(), [];
    }

    /** The loop over the pairs refuses a UID or a name that has occurred before; then the sequences are taken over. */
    method Build(pairs: seq<(UID, Text)>, sequences: seq<NameSequence>) returns (r: Result<()>)
      requires View() == Finder(Nothing(), [])
      modifies this
      ensures r.Ok? <==> Unique(pairs)
      ensures r.Err? ==> r.error == InvalidArgument
      ensures r.Ok? ==> Inverse(names) && Lists(names, pairs) && this.sequences == sequences
    {
      hide Inverse, Lists, Unique;
      NoPairs<UID, Text>();
      for i := 0 to |pairs|
        invariant Inverse(names) && Unique(pairs[..i]) && Lists(names, pairs[..i])
        invariant this.sequences == []
      {
        AddPair(names, pairs, i);
        if pairs[i].0 in names.forward || pairs[i].1 in names.backward {
          return Err(InvalidArgument);
        }
        names := Insert(names, pairs[i].0, pairs[i].1);
      }
      assert pairs[..|pairs|] == pairs;
      for i := 0 to |sequences|
        invariant Inverse(names) && Lists(names, pairs)
        invariant this.sequences == sequences[..i]
      {
        this.sequences := this.sequences + [sequences[i]];
      }
      assert sequences[..|sequences|] == sequences;
      r := Ok(());
    }

    method FindName(uid: UID) returns (r: Option<Text>)
      ensures r == NameOf(View(), uid)
    {
      if uid in names.forward {
        return Some(names.forward[uid]);
      }
      for i := 0 to |sequences|
        invariant forall j :: 0 <= j < i ==> SequenceName(sequences[j], uid) == None
      {
        var result := SequenceName(sequences[i], uid);
        if result.Some? {
          FirstNamed(sequences, uid, i);
          return result;
        }
      }
      NoneNamed(sequences, uid);
      r := None;
    }

    method FindUid(name: Text) returns (r: Option<UID>)
      ensures r == UidOf(View(), name)
    {
      if name in names.backward {
        return Some(names.backward[name]);
      }
      for i := 0 to |sequences|
        invariant forall j :: 0 <= j < i ==> SequenceUid(sequences[j], name) == None
      {
        var result := SequenceUid(sequences[i], name);
        if result.Some? {
          FirstFound(sequences, name, i);
          return result;
        }
      }
      NoneFound(sequences, name);
      r := None;
    }
  }

  datatype Finder = Finder(names: Lookups<UID, Text>, sequences: seq<NameSequence>)

  /** The first sequence that names a UID, or -1. */
  function NamingSequence(sequences: seq<NameSequence>, uid: UID): (i: int)
    ensures -1 <= i < |sequences|
    ensures i >= 0 ==> SequenceName(sequences[i], uid).Some?
    ensures forall j :: 0 <= j < (if i < 0 then |sequences| else i) ==> SequenceName(sequences[j], uid) == None
  {
    if sequences == [] then -1
    else if SequenceName(sequences[0], uid).Some? then 0
    else
      var i := NamingSequence(sequences[1..], uid);
      if i < 0 then -1 else i + 1
  }

  function FindingSequence(sequences: seq<NameSequence>, name: Text): (i: int)
    ensures -1 <= i < |sequences|
    ensures i >= 0 ==> SequenceUid(sequences[i], name).Some?
    ensures forall j :: 0 <= j < (if i < 0 then |sequences| else i) ==> SequenceUid(sequences[j], name) == None
  {
    if sequences == [] then -1
    else if SequenceUid(sequences[0], name).Some? then 0
    else
      var i := FindingSequence(sequences[1..], name);
      if i < 0 then -1 else i + 1
  }

  function NameOf(f: Finder, uid: UID): Option<Text> {
    if uid in f.names.forward then Some(f.names.forward[uid])
    else
      var i := NamingSequence(f.sequences, uid);
      if i < 0 then None else SequenceName(f.sequences[i], uid)
  }

  function UidOf(f: Finder, name: Text): Option<UID> {
    if name in f.names.backward then Some(f.names.backward[name])
    else
      var i := FindingSequence(f.sequences, name);
      if i < 0 then None else SequenceUid(f.sequences[i], name)
  }

  lemma FirstNamed(sequences: seq<NameSequence>, uid: UID, i: nat)
    requires i < |sequences| && SequenceName(sequences[i], uid).Some?
    requires forall j :: 0 <= j < i ==> SequenceName(sequences[j], uid) == None
    ensures NamingSequence(sequences, uid) == i
  {
    hide SequenceName;
  }

  lemma NoneNamed(sequences: seq<NameSequence>, uid: UID)
    requires forall j :: 0 <= j < |sequences| ==> SequenceName(sequences[j], uid) == None
    ensures NamingSequence(sequences, uid) == -1
  {
    hide SequenceName;
  }

  lemma FirstFound(sequences: seq<NameSequence>, name: Text, i: nat)
    requires i < |sequences| && SequenceUid(sequences[i], name).Some?
    requires forall j :: 0 <= j < i ==> SequenceUid(sequences[j], name) == None
    ensures FindingSequence(sequences, name) == i
  {
    hide SequenceUid;
  }

  lemma NoneFound(sequences: seq<NameSequence>, name: Text)
    requires forall j :: 0 <= j < |sequences| ==> SequenceUid(sequences[j], name) == None
    ensures FindingSequence(sequences, name) == -1
  {
    hide SequenceUid;
  }

  ghost predicate Usable(f: Finder) {
    Inverse(f.names) && forall i :: 0 <= i < |f.sequences| ==> Proper(f.sequences[i])
  }

  /** The name a sequence gives is taken by a pair or accepted by an earlier sequence. */
  predicate Clashes(f: Finder, uid: UID) {
    var i := NamingSequence(f.sequences, uid);
    && uid !in f.names.forward && i >= 0
    && var name := SequenceName(f.sequences[i], uid).value;
    && (name in f.names.backward || exists j :: 0 <= j < i && SequenceUid(f.sequences[j], name).Some?)
  }

  /** Finding the name of a UID and then the UID of that name leads back exactly if the name does not clash. */
  lemma FinderRoundTripIff(f: Finder, uid: UID)
    requires Usable(f) && NameOf(f, uid).Some?
    ensures UidOf(f, NameOf(f, uid).value) == Some(uid) <==> !Clashes(f, uid)
    ensures UidOf(f, NameOf(f, uid).value).Some?
  {
    hide SequenceName, SequenceUid;
    if uid !in f.names.forward {
      var i := NamingSequence(f.sequences, uid);
      var name := NameOf(f, uid).value;
      NamedIff(f.sequences[i], uid);
      SequenceRoundTrip(f.sequences[i], uid);
      var j := FindingSequence(f.sequences, name);
      if name !in f.names.backward && j < i && UidOf(f, name) == Some(uid) {
        AcceptedName(f.sequences[j], name);
        assert false;
      }
    }
  }

  /** A text is found only as a UID that has a name. */
  lemma FoundIsNamed(f: Finder, text: Text)
    requires Usable(f) && UidOf(f, text).Some?
    ensures NameOf(f, UidOf(f, text).value).Some?
  {
    hide SequenceName, SequenceUid;
    var uid := UidOf(f, text).value;
    if text !in f.names.backward {
      var j := FindingSequence(f.sequences, text);
      AcceptedName(f.sequences[j], text);
      if uid !in f.names.forward {
        assert NamingSequence(f.sequences, uid) >= 0;
      }
    }
  }

  /**
   * What typed JSON asks of names, for any UID: a finder is safe for it exactly if its name does not clash or, when it
   * has none, no name spells its digits.
   */
  lemma FinderIsSafeIff(f: Finder, uid: UID)
    requires Usable(f)
    ensures TypedJson.NameSafe(uid, u => NameOf(f, u), n => UidOf(f, n)) <==>
      if NameOf(f, uid).Some? then !Clashes(f, uid) else UidOf(f, UidToText(uid)) == None
  {
    hide UidToText, NameOf, UidOf, Clashes, ParseUid;
    if NameOf(f, uid).Some? {
      FinderRoundTripIff(f, uid);
    } else if UidOf(f, UidToText(uid)).Some? {
      FoundIsNamed(f, UidToText(uid));
    }
  }

  /** A usable finder without clashes, none of whose names spells a UID without a name, is safe for every UID. */
  lemma FinderIsSafe(f: Finder, uids: set<UID>)
    requires Usable(f)
    requires forall uid :: uid in uids ==> !Clashes(f, uid)
    requires forall uid :: uid in uids && NameOf(f, uid).None? ==> UidOf(f, UidToText(uid)) == None
    ensures TypedJson.AllSafe(uids, u => NameOf(f, u), n => UidOf(f, n))
  {
    hide UidToText, NameOf, UidOf, Clashes, TypedJson.NameSafe;
    forall uid | uid in uids
      ensures TypedJson.NameSafe(uid, u => NameOf(f, u), n => UidOf(f, n))
    {
      FinderIsSafeIff(f, uid);
    }
  }
}
