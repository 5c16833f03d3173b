/** The command names the program accepts and the command each one sends. */
module Commands {
  import opened Wrappers
  import opened Symbols
  import opened Packet

  /**
   * The command table as a partial lookup: the command of a name, or None
   * when the name is not one of the seven; "light" is the first light button.
   */
  function Lookup(name: string): (code: Option<string>)
    ensures code.Some? <==> name in {"off", "slow", "medium", "fast", "light", "light1", "light2"}
    ensures code.Some? ==> code.value in [Off, Slow, Med, Fast, Light1, Light2]
  {
    if name == "off" then Some(Off)
    else if name == "slow" then Some(Slow)
    else if name == "medium" then Some(Med)
    else if name == "fast" then Some(Fast)
    else if name == "light" then Some(Light1)
    else if name == "light1" then Some(Light1)
    else if name == "light2" then Some(Light2)
    else None
  }

  /** "light" is the first light button. */
  lemma CommandNames()
    ensures Lookup("light") == Lookup("light1") == Some(Light1)
  {
  }

  /** Each fan and light command is four symbols, twelve characters. */
  lemma CommandsAreSymbols()
    ensures IsSymbolString(Off) && IsSymbolString(Slow) && IsSymbolString(Med) && IsSymbolString(Fast)
    ensures IsSymbolString(Light1) && IsSymbolString(Light2)
  {
    SpeedConstants();
    LightConstants();
    EncodeSymbols([true, false, true, false]);
    EncodeSymbols([false, false, true, false]);
    EncodeSymbols([false, true, false, false]);
    EncodeSymbols([true, false, false, false]);
    EncodeSymbols([false, true, false, true]);
    EncodeSymbols([true, false, false, true]);
  }

  /** Every command in the table is four symbols, twelve characters. */
  lemma CommandCodes(name: string)
    requires Lookup(name).Some?
    ensures |Lookup(name).value| == 12 && IsSymbolString(Lookup(name).value)
  {
    CommandsAreSymbols();
    var code := Lookup(name).value;
    assert code in [Off, Slow, Med, Fast, Light1, Light2];
  }
}
