/**
  The `Player` record of `GameState.java` and its one-byte "encryption":
  `writeObject` writes the low byte of `-livesLeft`, `readObject` negates
  the signed byte it reads back.  Only that byte codec and the `toString`
  texts are modelled; the object stream around them is not.
*/
module GameState {
  import opened JavaLang

  /** A byte on the stream; `writeByte` keeps the low 8 bits of its argument. */
  type StreamByte = b: int | 0 <= b < 0x100

  /** What `writeObject` puts on the stream: the low 8 bits of `-livesLeft`. */
  function Encrypt(livesLeft: Int16): (b: StreamByte)
    ensures (b + livesLeft) % 0x100 == 0
  {
    (-(livesLeft as int)) % 0x100
  }

  /** What `readObject` stores: `(short) -s.readByte()`, where `readByte` reads the byte as signed. */
  function Decrypt(b: StreamByte): (lives: Int16)
    ensures -127 <= lives <= 128
    ensures (lives + b) % 0x100 == 0
  {
    ToShort(-(ToByte(b) as int))
  }

  /** Reading back what was written gives the same count exactly when it lies in [-127, 128]. */
  lemma RoundTrip(lives: Int16)
    ensures Decrypt(Encrypt(lives)) == lives <==> -127 <= lives <= 128
  {
    var b := Encrypt(lives);
    if -127 <= lives <= 128 {
      if lives <= 0 {
        assert b == -lives;
      } else {
        assert b == 0x100 - lives;
      }
    }
  }

  /** Every byte on the stream survives the other way round: encrypting what was decrypted. */
  lemma RoundTripFromStream(b: StreamByte)
    ensures Encrypt(Decrypt(b)) == b
  {
  }

  /** `v = -128` is written as 0x80, read as the signed byte -128, and comes back as 128. */
  lemma MinusOneTwentyEightComesBackPositive()
    ensures Encrypt(-128) == 0x80 && Decrypt(0x80) == 128
  {
  }

  class Player {
    var livesLeft: Int16

    /** `Player(int lives)`: keeps `(short) lives`. */
    constructor (lives: Int32)
      ensures livesLeft == ToShort(lives)
    {
      livesLeft := ToShort(lives);
    }

    /** `writeObject`: the one byte it writes; the player is not changed. */
    method WriteObject() returns (written: StreamByte)
      ensures written == Encrypt(livesLeft)
    {
      written := Encrypt(livesLeft);
    }

    /** `readObject`: sets `livesLeft` from the byte read. */
    method ReadObject(read: StreamByte)
      modifies this
      ensures livesLeft == Decrypt(read)
    {
      livesLeft := Decrypt(read);
    }

    /** `toString`: `"Player[" + livesLeft + "]"`. */
    function ToString(): (s: string)
      reads this
      ensures |s| > 8 && s[..7] == "Player[" && s[|s| - 1] == ']'
      ensures ParseInt(s[7..|s| - 1]) == Parsed(livesLeft)
      ensures s == "Player[" + IntToString(livesLeft) + "]"
    {
      var s := "Player[" + IntToString(livesLeft) + "]";
      assert s[7..|s| - 1] == IntToString(livesLeft);
      ParseIntOfToString(livesLeft);
      s
    }
  }

  /** `GameState.toString`: `"GameState[ " + player.toString() + " ]"`. */
  function GameStateToString(player: Player): (s: string)
    reads player
    ensures |s| > 13 && s[..11] == "GameState[ " && s[|s| - 2..] == " ]"
    ensures s[11..|s| - 2] == player.ToString()
  {
    "GameState[ " + player.ToString() + " ]"
  }

  /** The player `main` writes and reads back, `new Player(3)`, keeps its 3 lives. */
  lemma SavedGameKeepsThreeLives()
    ensures Decrypt(Encrypt(ToShort(3))) == 3
  {
    RoundTrip(3);
  }
}
