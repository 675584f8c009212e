/** The literals and matches that deflate hands to its tree coder, and the bytes that an
    inflater makes of them. */
module Tokens {
  import opened Common
  import opened InflateWindow

  datatype Token = Literal(byte: Byte) | Copy(dist: nat, len: nat)

  /** History h after one token more; none if the distance reaches before the beginning. */
  function Step(h: seq<Byte>, t: Token): Option<seq<Byte>> {
    match t
    case Literal(b) => Some(h + [b])
    case Copy(dist, len) => if 0 < dist <= |h| then Some(Match(h, dist, len)) else None
  }

  function Expand(toks: seq<Token>): Option<seq<Byte>> {
    if toks == [] then Some([])
    else
      match Expand(toks[..|toks| - 1])
      case None => None
      case Some(h) => Step(h, toks[|toks| - 1])
  }

  lemma ExpandPush(toks: seq<Token>, t: Token)
    ensures Expand(toks + [t]) == if Expand(toks) == None then None else Step(Expand(toks).value, t)
  {
    assert (toks + [t])[..|toks + [t]| - 1] == toks;
  }

  /** Text that repeats what stands dist bytes before is what the match makes. */
  lemma {:induction false} MatchIsText(text: seq<Byte>, at: nat, dist: nat, len: nat)
    requires 0 < dist <= at && at + len <= |text|
    requires forall i :: at <= i < at + len ==> text[i] == text[i - dist]
    ensures Match(text[..at], dist, len) == text[..at + len]
  {
    if len > 0 {
      MatchIsText(text, at, dist, len - 1);
      assert text[..at + len] == text[..at + len - 1] + [text[at + len - 1]];
    } else {
      assert text[..at + 0] == text[..at];
    }
  }

  // ---------- blocks ----------

  /** A block as handed over for output: its tokens, the stretch of the window that may be
      stored in their place if it is still there, and the last-block mark. */
  datatype Block = Block(tokens: seq<Token>, stored: Option<seq<Byte>>, last: bool)

  ghost function TokensOf(blocks: seq<Block>): seq<Token> {
    if blocks == [] then [] else TokensOf(blocks[..|blocks| - 1]) + blocks[|blocks| - 1].tokens
  }

  /** In every block the bytes that may be stored are those that the tokens stand for, and
      no block but the final one is marked last. */
  ghost predicate Interchangeable(blocks: seq<Block>) {
    blocks == [] || (
      var before, b := blocks[..|blocks| - 1], blocks[|blocks| - 1];
      && Interchangeable(before) && !Ended(before) && Expand(TokensOf(before)).Some?
      && (b.stored.Some? ==> Expand(TokensOf(blocks)) == Some(Expand(TokensOf(before)).value + b.stored.value)))
  }

  ghost predicate Ended(blocks: seq<Block>) {
    blocks != [] && blocks[|blocks| - 1].last
  }

  lemma AppendBlock(blocks: seq<Block>, b: Block, text: seq<Byte>, from: nat)
    requires Interchangeable(blocks) && !Ended(blocks)
    requires Expand(TokensOf(blocks) + b.tokens) == Some(text) && from <= |text| &&
             Expand(TokensOf(blocks)) == Some(text[..from])
    requires b.stored.Some? ==> b.stored.value == text[from..]
    ensures Interchangeable(blocks + [b]) && TokensOf(blocks + [b]) == TokensOf(blocks) + b.tokens
    ensures Ended(blocks + [b]) == b.last
  {
    assert (blocks + [b])[..|blocks|] == blocks;
    assert text == text[..from] + text[from..];
  }
}
