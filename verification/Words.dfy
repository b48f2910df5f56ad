/** 32-bit unsigned words, and the word a number is kept in. */
module Words {

  /** One more than the largest word. */
  const WORD: nat := 0x1_0000_0000

  type u32 = x: nat | x < 0x1_0000_0000

  function Wrap(x: int): u32 { x % 0x1_0000_0000 }
}
