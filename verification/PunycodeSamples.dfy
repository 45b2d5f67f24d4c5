// Sample strings that fix the parameters, the alphabet and the bias adaptation:
// a German word, and sample (L) of section 7.1 of RFC 3492.

module PunycodeSamples {
  import opened Wrappers
  import opened Punycode
  import Idna
  import PunycodeUnique

  // The integers that two, three and four digits stand for.
  function Last(a: char, t: nat): Option<nat> {
    if DigitValue(a).Some? && DigitValue(a).value < t then DigitValue(a) else None
  }

  function More(a: char, t: nat, higher: Option<nat>): Option<nat>
    requires t <= 26
  {
    if DigitValue(a).Some? && DigitValue(a).value >= t && higher.Some?
    then Some(DigitValue(a).value + higher.value * (36 - t)) else None
  }

  lemma LastRead(a: char, rest: seq<char>, k: nat, bias: nat)
    requires Last(a, Threshold(k, bias)).Some?
    ensures DecodeInteger([a] + rest, k, bias) == Some((Last(a, Threshold(k, bias)).value, rest))
  {
    assert ([a] + rest)[1..] == rest;
  }

  lemma MoreRead(a: char, s: seq<char>, rest: seq<char>, k: nat, bias: nat, higher: nat)
    requires DecodeInteger(s, k + 36, bias) == Some((higher, rest))
    requires More(a, Threshold(k, bias), Some(higher)).Some?
    ensures DecodeInteger([a] + s, k, bias) == Some((More(a, Threshold(k, bias), Some(higher)).value, rest))
  {
    assert ([a] + s)[1..] == s;
  }

  function Two(a: char, b: char, k: nat, bias: nat): Option<nat> {
    More(a, Threshold(k, bias), Last(b, Threshold(k + 36, bias)))
  }

  function Three(a: char, b: char, c: char, k: nat, bias: nat): Option<nat> {
    More(a, Threshold(k, bias), Two(b, c, k + 36, bias))
  }

  function Four(a: char, b: char, c: char, d: char, bias: nat): Option<nat> {
    More(a, Threshold(36, bias), Three(b, c, d, 72, bias))
  }

  lemma TwoRead(a: char, b: char, rest: seq<char>, k: nat, bias: nat)
    requires Two(a, b, k, bias).Some?
    ensures DecodeInteger([a, b] + rest, k, bias) == Some((Two(a, b, k, bias).value, rest))
  {
    hide DecodeInteger, Threshold;
    LastRead(b, rest, k + 36, bias);
    MoreRead(a, [b] + rest, rest, k, bias, Last(b, Threshold(k + 36, bias)).value);
    assert [a, b] + rest == [a] + ([b] + rest);
  }

  lemma ThreeRead(a: char, b: char, c: char, rest: seq<char>, k: nat, bias: nat)
    requires Three(a, b, c, k, bias).Some?
    ensures DecodeInteger([a, b, c] + rest, k, bias) == Some((Three(a, b, c, k, bias).value, rest))
  {
    hide DecodeInteger, Threshold;
    TwoRead(b, c, rest, k + 36, bias);
    MoreRead(a, [b, c] + rest, rest, k, bias, Two(b, c, k + 36, bias).value);
    assert [a, b, c] + rest == [a] + ([b, c] + rest);
  }

  lemma FourRead(a: char, b: char, c: char, d: char, rest: seq<char>, bias: nat)
    requires Four(a, b, c, d, bias).Some?
    ensures DecodeInteger([a, b, c, d] + rest, 36, bias) == Some((Four(a, b, c, d, bias).value, rest))
  {
    hide DecodeInteger, Threshold;
    ThreeRead(b, c, d, rest, 72, bias);
    MoreRead(a, [b, c, d] + rest, rest, 36, bias, Three(b, c, d, 72, bias).value);
    assert [a, b, c, d] + rest == [a] + ([b, c, d] + rest);
  }

  // The decoder reads a delta, inserts `n` at `pos` and goes on with `bias`.
  lemma DeltaRead(s: seq<char>, rest: seq<char>, st: DecoderState, delta: nat, n: nat, pos: nat, bias: nat, out: seq<nat>)
    requires s != [] && DecodeInteger(s, 36, st.bias) == Some((delta, rest))
    requires pos <= |st.output| && n >= st.n && st.i + delta == (n - st.n) * (|st.output| + 1) + pos
    requires bias == Adapt(delta, |st.output| + 1, st.i == 0)
    requires out == st.output[..pos] + [n] + st.output[pos..]
    ensures DecodeDeltas(s, st) == DecodeDeltas(rest, DecoderState(n, pos + 1, bias, out))
  {
    hide DecodeInteger, Adapt;
    Idna.MixedRadix(n - st.n, pos, |st.output| + 1);
  }

  lemma NothingLeft(st: DecoderState)
    ensures DecodeDeltas([], st) == Some(st.output)
  {
  }

  // "bücher", whose only code point beyond ASCII is the second.
  lemma Buecher1(rest: seq<char>)
    ensures DecodeDeltas("kva" + rest, DecoderState(128, 0, 72, [0x62, 0x63, 0x68, 0x65, 0x72]))
         == DecodeDeltas(rest, DecoderState(0xFC, 2, 0, [0x62, 0xFC, 0x63, 0x68, 0x65, 0x72]))
  {
    hide DecodeDeltas;
    var st := DecoderState(128, 0, 72, [0x62, 0x63, 0x68, 0x65, 0x72]);
    ThreeRead('k', 'v', 'a', rest, 36, 72);
    assert "kva" + rest == ['k', 'v', 'a'] + rest;
    assert Adapt(745, 6, true) == 0;
    DeltaRead("kva" + rest, rest, st, 745, 0xFC, 1, 0, [0x62, 0xFC, 0x63, 0x68, 0x65, 0x72]);
  }

  lemma BuecherDecodes()
    ensures Decode("bcher-kva") == Some([0x62, 0xFC, 0x63, 0x68, 0x65, 0x72])
  {
    hide DecodeDeltas;
    var s := "bcher-kva";
    assert s == "bcher" + ['-'] + "kva";
    Idna.LastDelimiter("bcher", "kva");
    assert s[6..] == "kva" && CodePoints(s[..5]) == [0x62, 0x63, 0x68, 0x65, 0x72];
    assert "kva" == "kva" + [];
    Buecher1([]);
    NothingLeft(DecoderState(0xFC, 2, 0, [0x62, 0xFC, 0x63, 0x68, 0x65, 0x72]));
  }

  // "3 nen B gumi Kinpachi sensei": six deltas.
  lemma Kinpachi1(rest: seq<char>)
    ensures DecodeDeltas("ww4c" + rest, DecoderState(128, 0, 72, [0x33, 0x42]))
         == DecodeDeltas(rest, DecoderState(0x5148, 3, 27, [0x33, 0x42, 0x5148]))
  {
    hide DecodeDeltas;
    var st := DecoderState(128, 0, 72, [0x33, 0x42]);
    FourRead('w', 'w', '4', 'c', rest, 72);
    assert "ww4c" + rest == ['w', 'w', '4', 'c'] + rest;
    assert Adapt(62042, 3, true) == 27;
    DeltaRead("ww4c" + rest, rest, st, 62042, 0x5148, 2, 27, [0x33, 0x42, 0x5148]);
  }

  lemma Kinpachi2(rest: seq<char>)
    ensures DecodeDeltas("5e" + rest, DecoderState(0x5148, 3, 27, [0x33, 0x42, 0x5148]))
         == DecodeDeltas(rest, DecoderState(0x516B, 3, 24, [0x33, 0x42, 0x516B, 0x5148]))
  {
    hide DecodeDeltas;
    var st := DecoderState(0x5148, 3, 27, [0x33, 0x42, 0x5148]);
    TwoRead('5', 'e', rest, 36, 27);
    assert "5e" + rest == ['5', 'e'] + rest;
    assert Adapt(139, 4, false) == 24;
    DeltaRead("5e" + rest, rest, st, 139, 0x516B, 2, 24, [0x33, 0x42, 0x516B, 0x5148]);
  }

  lemma Kinpachi3(rest: seq<char>)
    ensures DecodeDeltas("180e" + rest, DecoderState(0x516B, 3, 24, [0x33, 0x42, 0x516B, 0x5148]))
         == DecodeDeltas(rest, DecoderState(0x5E74, 2, 67, [0x33, 0x5E74, 0x42, 0x516B, 0x5148]))
  {
    hide DecodeDeltas;
    var st := DecoderState(0x516B, 3, 24, [0x33, 0x42, 0x516B, 0x5148]);
    FourRead('1', '8', '0', 'e', rest, 24);
    assert "180e" + rest == ['1', '8', '0', 'e'] + rest;
    assert AdaptLoop(10009, 0) == AdaptLoop(285, 36);
    assert Adapt(16683, 5, false) == 67;
    DeltaRead("180e" + rest, rest, st, 16683, 0x5E74, 1, 67, [0x33, 0x5E74, 0x42, 0x516B, 0x5148]);
  }

  lemma Kinpachi4(rest: seq<char>)
    ensures DecodeDeltas("575a" + rest, DecoderState(0x5E74, 2, 67, [0x33, 0x5E74, 0x42, 0x516B, 0x5148]))
         == DecodeDeltas(rest, DecoderState(0x751F, 6, 82, [0x33, 0x5E74, 0x42, 0x516B, 0x5148, 0x751F]))
  {
    hide DecodeDeltas;
    var st := DecoderState(0x5E74, 2, 67, [0x33, 0x5E74, 0x42, 0x516B, 0x5148]);
    FourRead('5', '7', '5', 'a', rest, 67);
    assert "575a" + rest == ['5', '7', '5', 'a'] + rest;
    assert AdaptLoop(20311, 0) == AdaptLoop(580, 36);
    assert AdaptLoop(580, 36) == AdaptLoop(16, 72);
    assert Adapt(34821, 6, false) == 82;
    DeltaRead("575a" + rest, rest, st, 34821, 0x751F, 5, 82, [0x33, 0x5E74, 0x42, 0x516B, 0x5148, 0x751F]);
  }

  lemma Kinpachi5(rest: seq<char>)
    ensures DecodeDeltas("65l" + rest, DecoderState(0x751F, 6, 82, [0x33, 0x5E74, 0x42, 0x516B, 0x5148, 0x751F]))
         == DecodeDeltas(rest, DecoderState(0x7D44, 4, 67, [0x33, 0x5E74, 0x42, 0x7D44, 0x516B, 0x5148, 0x751F]))
  {
    hide DecodeDeltas;
    var st := DecoderState(0x751F, 6, 82, [0x33, 0x5E74, 0x42, 0x516B, 0x5148, 0x751F]);
    ThreeRead('6', '5', 'l', rest, 36, 82);
    assert "65l" + rest == ['6', '5', 'l'] + rest;
    assert AdaptLoop(8338, 0) == AdaptLoop(238, 36);
    assert Adapt(14592, 7, false) == 67;
    DeltaRead("65l" + rest, rest, st, 14592, 0x7D44, 3, 67, [0x33, 0x5E74, 0x42, 0x7D44, 0x516B, 0x5148, 0x751F]);
  }

  lemma Kinpachi6(rest: seq<char>)
    ensures DecodeDeltas("sy2b" + rest, DecoderState(0x7D44, 4, 67, [0x33, 0x5E74, 0x42, 0x7D44, 0x516B, 0x5148, 0x751F]))
         == DecodeDeltas(rest, DecoderState(0x91D1, 5, 84, [0x33, 0x5E74, 0x42, 0x7D44, 0x91D1, 0x516B, 0x5148, 0x751F]))
  {
    hide DecodeDeltas;
    var st := DecoderState(0x7D44, 4, 67, [0x33, 0x5E74, 0x42, 0x7D44, 0x516B, 0x5148, 0x751F]);
    FourRead('s', 'y', '2', 'b', rest, 67);
    assert "sy2b" + rest == ['s', 'y', '2', 'b'] + rest;
    assert AdaptLoop(23674, 0) == AdaptLoop(676, 36);
    assert AdaptLoop(676, 36) == AdaptLoop(19, 72);
    assert Adapt(42088, 8, false) == 84;
    DeltaRead("sy2b" + rest, rest, st, 42088, 0x91D1, 4, 84, [0x33, 0x5E74, 0x42, 0x7D44, 0x91D1, 0x516B, 0x5148, 0x751F]);
  }

  lemma KinpachiDeltas()
    ensures DecodeDeltas("ww4c5e180e575a65lsy2b", DecoderState(128, 0, 72, [0x33, 0x42])) == Some([0x33, 0x5E74, 0x42, 0x7D44, 0x91D1, 0x516B, 0x5148, 0x751F])
  {
    hide DecodeDeltas;
    assert "ww4c5e180e575a65lsy2b" == "ww4c" + "5e180e575a65lsy2b";
    Kinpachi1("5e180e575a65lsy2b");
    assert "5e180e575a65lsy2b" == "5e" + "180e575a65lsy2b";
    Kinpachi2("180e575a65lsy2b");
    assert "180e575a65lsy2b" == "180e" + "575a65lsy2b";
    Kinpachi3("575a65lsy2b");
    assert "575a65lsy2b" == "575a" + "65lsy2b";
    Kinpachi4("65lsy2b");
    assert "65lsy2b" == "65l" + "sy2b";
    Kinpachi5("sy2b");
    assert "sy2b" == "sy2b" + [];
    Kinpachi6([]);
    NothingLeft(DecoderState(0x91D1, 5, 84, [0x33, 0x5E74, 0x42, 0x7D44, 0x91D1, 0x516B, 0x5148, 0x751F]));
  }

  lemma KinpachiDecodes()
    ensures Decode("3B-ww4c5e180e575a65lsy2b") == Some([0x33, 0x5E74, 0x42, 0x7D44, 0x91D1, 0x516B, 0x5148, 0x751F])
  {
    hide DecodeDeltas;
    var s := "3B-ww4c5e180e575a65lsy2b";
    assert s == "3B" + ['-'] + "ww4c5e180e575a65lsy2b";
    Idna.LastDelimiter("3B", "ww4c5e180e575a65lsy2b");
    assert s[3..] == "ww4c5e180e575a65lsy2b" && CodePoints(s[..2]) == [0x33, 0x42];
    KinpachiDeltas();
  }

  // So these are the strings the encoder writes, and the only ones.
  lemma OnlyThis(e: seq<char>, text: seq<char>, points: seq<nat>)
    requires Canonical(e) && Canonical(text) && Decode(text) == Some(points)
    ensures Decode(e) == Some(points) <==> e == text
  {
    hide Decode, Canonical;
    if Decode(e) == Decode(text) { PunycodeUnique.OneEncoding(e, text); }
  }

  lemma BuecherIsWritten(e: seq<char>)
    requires Canonical(e)
    ensures Decode(e) == Some([0x62, 0xFC, 0x63, 0x68, 0x65, 0x72]) <==> e == "bcher-kva"
  {
    hide Decode, Canonical;
    BuecherDecodes();
    IsCanonical("bcher", "kva");
    assert "bcher" + ['-'] + "kva" == "bcher-kva";
    OnlyThis(e, "bcher-kva", [0x62, 0xFC, 0x63, 0x68, 0x65, 0x72]);
  }

  lemma KinpachiIsWritten(e: seq<char>)
    requires Canonical(e)
    ensures Decode(e) == Some([0x33, 0x5E74, 0x42, 0x7D44, 0x91D1, 0x516B, 0x5148, 0x751F]) <==> e == "3B-ww4c5e180e575a65lsy2b"
  {
    hide Decode, Canonical;
    KinpachiDecodes();
    IsCanonical("3B", "ww4c5e180e575a65lsy2b");
    assert "3B" + ['-'] + "ww4c5e180e575a65lsy2b" == "3B-ww4c5e180e575a65lsy2b";
    OnlyThis(e, "3B-ww4c5e180e575a65lsy2b", [0x33, 0x5E74, 0x42, 0x7D44, 0x91D1, 0x516B, 0x5148, 0x751F]);
  }

  lemma IsCanonical(basic: seq<char>, deltas: seq<char>)
    requires basic != [] && AllLower(deltas) && forall i :: 0 <= i < |basic| ==> basic[i] as int < 128
    ensures Canonical(basic + ['-'] + deltas)
  {
    Idna.LastDelimiter(basic, deltas);
    assert (basic + ['-'] + deltas)[|basic| + 1..] == deltas;
  }
}
