/** The one reply that ends an SMTP connection (crates/smtp/src/io.rs),
    and the I/O error the SMTP readers report. */
module SmtpIo {
  import opened Line

  /** The reply to QUIT. */
  const BYE := "221 Bye\r\n"

  /** The only I/O error the model produces: the input ended, or the
      client gave up, where the reader needed more. */
  datatype IoError = UnexpectedEof

  /** `bye`: the reply, then the connection is shut. */
  method Bye(conn: Connection)
    modifies conn
    ensures conn.output == old(conn.output) + BYE && !conn.open
    ensures conn.buffered == old(conn.buffered) && conn.arrivals == old(conn.arrivals) && conn.tls == old(conn.tls)
  {
    conn.Write(BYE);
    conn.Shutdown();
  }
}
