/** The lookahead length of the xcpio read loop as written.  At the top of
    each pass `cpio_archive_begin_read` reads one block only while
    `buf_len < buf_size - block_size`, but then adds `r` to `buf_len`
    unconditionally, so a pass that skipped the read adds the count of the
    previous read a second time.  The scenario below is the simplest one
    that shows it: every read(2) returns a whole block, and the archive
    holds only empty files whose headers are `h` bytes long, so the decoder
    takes one header whenever at least `h` bytes are buffered. */
module ScanFinding {

  /** `buf_len` and the value `r` holds at the top of a pass. */
  datatype Top = Top(bufLen: int, r: int)

  /** The length handed to the decoder in a pass, as written: `buf_len`
      plus the fresh read when one ran, plus the stale `r` otherwise.
      This is a definition; its contract spells out each case of it. */
  function ShownAsWritten(bs: int, t: Top): (n: int)
    ensures t.bufLen < 3 * bs ==> n == t.bufLen + bs
    ensures t.bufLen >= 3 * bs ==> n == t.bufLen + t.r
  {
    if t.bufLen < 3 * bs then t.bufLen + bs else t.bufLen + t.r
  }

  /** One pass as written: the length shown to the decoder loses one
      header when one fits, and `r` keeps its last value. */
  function PassAsWritten(bs: int, h: int, t: Top): Top {
    var shown := ShownAsWritten(bs, t);
    var r := if t.bufLen < 3 * bs then bs else t.r;
    Top(if shown >= h then shown - h else shown, r)
  }

  /** The state at the top of pass `n + 1`, starting from an empty buffer
      with `r` unset (zero). */
  function RunAsWritten(bs: int, h: int, n: nat): Top {
    if n == 0 then Top(0, 0) else PassAsWritten(bs, h, RunAsWritten(bs, h, n - 1))
  }

  /** With 512-byte blocks (a 2048-byte buffer) and 80-byte headers of
      empty files, the fifth pass skips the read at 1728 buffered bytes and
      hands the decoder 2240 bytes of a 2048-byte buffer. */
  lemma StaleReadOverruns()
    ensures RunAsWritten(512, 80, 4) == Top(1728, 512)
    ensures ShownAsWritten(512, RunAsWritten(512, 80, 4)) == 2240 > 4 * 512
  {
    assert RunAsWritten(512, 80, 1) == Top(432, 512);
    assert RunAsWritten(512, 80, 2) == Top(864, 512);
    assert RunAsWritten(512, 80, 3) == Top(1296, 512);
  }

  /** When no header ever fits, three reads bring in 1536 bytes, and the
      fourth pass skips the read but shows the decoder 2048 bytes: the
      last block was never read. */
  lemma StaleReadShowsUnreadBlock()
    ensures RunAsWritten(512, 4096, 3) == Top(1536, 512)
    ensures ShownAsWritten(512, RunAsWritten(512, 4096, 3)) == 2048
  {
    assert RunAsWritten(512, 4096, 1) == Top(512, 512);
    assert RunAsWritten(512, 4096, 2) == Top(1024, 512);
  }

  /** The length handed to the decoder once `r` is added only after a
      read that ran. */
  function ShownCorrected(bs: int, bufLen: int): (n: int)
  {
    if bufLen < 3 * bs then bufLen + bs else bufLen
  }

  function PassCorrected(bs: int, h: int, bufLen: int): int {
    var shown := ShownCorrected(bs, bufLen);
    if shown >= h then shown - h else shown
  }

  function RunCorrected(bs: int, h: int, n: nat): int {
    if n == 0 then 0 else PassCorrected(bs, h, RunCorrected(bs, h, n - 1))
  }

  /** Corrected, the decoder is never shown more than the four blocks of
      the buffer, whatever the block and header sizes and however many
      passes have run. */
  lemma {:induction false} CorrectedStaysInBuffer(bs: int, h: int, n: nat)
    requires bs > 0 && h > 0
    ensures 0 <= RunCorrected(bs, h, n) <= ShownCorrected(bs, RunCorrected(bs, h, n)) <= 4 * bs
  {
    if n > 0 {
      CorrectedStaysInBuffer(bs, h, n - 1);
    }
  }

  /** On the scenario of `StaleReadOverruns`, the corrected pass hands
      the decoder only the 1728 bytes it holds. */
  lemma CorrectedOnOverrunScenario()
    ensures RunCorrected(512, 80, 4) == 1728
    ensures ShownCorrected(512, RunCorrected(512, 80, 4)) == 1728
  {
    assert RunCorrected(512, 80, 1) == 432;
    assert RunCorrected(512, 80, 2) == 864;
    assert RunCorrected(512, 80, 3) == 1296;
  }
}
