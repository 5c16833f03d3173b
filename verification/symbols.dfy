/** A value that may be absent. */
module Wrappers {
  datatype Option<+T> = None | Some(value: T)
}

/**
 * The ternary-pulse alphabet of the Minka Aire (TR110A) remote: every
 * logical bit goes on the air as a three-pulse symbol, "010" for 0 and
 * "110" for 1. Symbol strings are written as strings of '0'/'1'.
 */
module Symbols {
  import opened Wrappers

  /** A string made only of the characters '0' and '1'. */
  predicate IsBinary(s: string) {
    forall i :: 0 <= i < |s| ==> s[i] == '0' || s[i] == '1'
  }

  /** One of the two symbols of the alphabet. */
  predicate IsSymbol(s: string) {
    s == "010" || s == "110"
  }

  /** A whole number of symbols, each one of the two of the alphabet. */
  predicate IsSymbolString(s: string) {
    |s| % 3 == 0 && forall k :: 0 <= k < |s| / 3 ==> IsSymbol(s[3 * k..3 * k + 3])
  }

  /** The symbol of one logical bit; its first pulse carries the bit. */
  function Symbol(bit: bool): (s: string)
    ensures IsSymbol(s)
    ensures bit <==> s[0] == '1'
  {
    if bit then "110" else "010"
  }

  /** The symbol string of a sequence of logical bits. */
  function Encode(bits: seq<bool>): (s: string)
    ensures |s| == 3 * |bits|
  {
    if bits == [] then [] else Symbol(bits[0]) + Encode(bits[1..])
  }

  /** Slot k of a three-character head followed by a rest: the head, or slot k - 1 of the rest. */
  lemma SymbolSlice(head: string, rest: string, k: nat)
    requires |head| == 3 && 3 * k + 3 <= 3 + |rest|
    ensures k == 0 ==> (head + rest)[3 * k..3 * k + 3] == head
    ensures k > 0 ==> (head + rest)[3 * k..3 * k + 3] == rest[3 * (k - 1)..3 * (k - 1) + 3]
  {
  }

  /** Symbol k of an encoding is the symbol of bit k. */
  lemma {:induction false} EncodeAt(bits: seq<bool>, k: nat)
    requires k < |bits|
    ensures Encode(bits)[3 * k..3 * k + 3] == Symbol(bits[k])
  {
    var head, rest := Symbol(bits[0]), Encode(bits[1..]);
    assert Encode(bits) == head + rest;
    SymbolSlice(head, rest, k);
    if k > 0 {
      EncodeAt(bits[1..], k - 1);
      assert bits[1..][k - 1] == bits[k];
    }
  }

  /** Reads a symbol string back into logical bits; None when it is not one. */
  function Decode(s: string): (r: Option<seq<bool>>)
    ensures r.Some? ==> |s| == 3 * |r.value|
    decreases |s|
  {
    if |s| == 0 then Some([])
    else if |s| < 3 || !IsSymbol(s[..3]) then None
    else
      match Decode(s[3..])
      case None => None
      case Some(rest) => Some([s[0] == '1'] + rest)
  }

  /** An encoding is a symbol string. */
  lemma EncodeIsSymbolString(bits: seq<bool>)
    ensures IsSymbolString(Encode(bits)) && IsBinary(Encode(bits))
  {
    EncodeSymbols(bits);
    EncodeBinary(bits);
  }

  lemma EncodeSymbols(bits: seq<bool>)
    ensures IsSymbolString(Encode(bits))
  {
    var s := Encode(bits);
    assert |s| / 3 == |bits|;
    forall k | 0 <= k < |s| / 3 ensures IsSymbol(s[3 * k..3 * k + 3]) {
      EncodeAt(bits, k);
    }
  }

  lemma EncodeBinary(bits: seq<bool>)
    ensures IsBinary(Encode(bits))
  {
    var s := Encode(bits);
    forall i | 0 <= i < |s| ensures s[i] == '0' || s[i] == '1' {
      var k := i / 3;
      assert 3 * k <= i < 3 * k + 3 && k < |bits|;
      EncodeAt(bits, k);
      assert s[i] == s[3 * k..3 * k + 3][i - 3 * k];
    }
  }

  /** Decoding undoes encoding. */
  lemma {:induction false} DecodeEncode(bits: seq<bool>)
    ensures Decode(Encode(bits)) == Some(bits)
  {
    if bits != [] {
      var s := Encode(bits);
      assert s[3..] == Encode(bits[1..]);
      DecodeEncode(bits[1..]);
      assert [s[0] == '1'] + bits[1..] == bits;
    }
  }

  /** Encoding undoes a successful decoding. */
  lemma {:induction false} EncodeDecode(s: string)
    requires Decode(s).Some?
    ensures Encode(Decode(s).value) == s
  {
    if |s| != 0 {
      EncodeDecode(s[3..]);
      var bits := Decode(s).value;
      assert bits[1..] == Decode(s[3..]).value;
      assert Symbol(bits[0]) == s[..3];
      assert s == s[..3] + s[3..];
    }
  }

  /** Decoding succeeds exactly on the symbol strings. */
  lemma {:induction false} DecodeDefined(s: string)
    ensures Decode(s).Some? <==> IsSymbolString(s)
  {
    if Decode(s).Some? {
      EncodeDecode(s);
      EncodeIsSymbolString(Decode(s).value);
    } else if IsSymbolString(s) && |s| != 0 {
      assert IsSymbol(s[..3]) by { assert s[3 * 0..3 * 0 + 3] == s[..3]; }
      var t := s[3..];
      forall k | 0 <= k < |t| / 3 ensures IsSymbol(t[3 * k..3 * k + 3]) {
        assert t[3 * k..3 * k + 3] == s[3 * (k + 1)..3 * (k + 1) + 3];
      }
      DecodeDefined(t);
      assert false;
    }
  }

  /** Encoding distributes over concatenation. */
  lemma {:induction false} EncodeAppend(a: seq<bool>, b: seq<bool>)
    ensures Encode(a + b) == Encode(a) + Encode(b)
  {
    if a == [] {
      assert a + b == b;
    } else {
      calc {
        Encode(a + b);
      ==  { assert (a + b)[0] == a[0] && (a + b)[1..] == a[1..] + b; }
        Symbol(a[0]) + Encode(a[1..] + b);
      ==  { EncodeAppend(a[1..], b); }
        Symbol(a[0]) + (Encode(a[1..]) + Encode(b));
      ==
        (Symbol(a[0]) + Encode(a[1..])) + Encode(b);
      }
    }
  }

  /** A symbol string is binary. */
  lemma SymbolStringIsBinary(s: string)
    requires IsSymbolString(s)
    ensures IsBinary(s)
  {
    DecodeDefined(s);
    EncodeDecode(s);
    EncodeIsSymbolString(Decode(s).value);
  }

  /** A four-bit value is the concatenation of its four symbols. */
  lemma Encode4(bits: seq<bool>)
    requires |bits| == 4
    ensures Encode(bits) == Symbol(bits[0]) + (Symbol(bits[1]) + (Symbol(bits[2]) + Symbol(bits[3])))
  {
    var t1 := bits[1..];
    var t2 := t1[1..];
    var t3 := t2[1..];
    assert Encode(t3) == Symbol(bits[3]) + Encode(t3[1..]);
    assert t3[1..] == [];
    assert Encode(t2) == Symbol(bits[2]) + Encode(t3);
    assert Encode(t1) == Symbol(bits[1]) + Encode(t2);
  }
}
