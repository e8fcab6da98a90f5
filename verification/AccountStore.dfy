/** A user row and the functions of backend/app/core/verification.py that read and
    update it, with the endpoints that call them. Each endpoint is proved to be the
    step of VerificationCodes it stands for. */
module AccountStore {
  import opened Options
  import opened VerificationCodes

  class Account {
    var verified: bool
    var token: Option<string>
    var expires: Option<Time>
    var attempts: nat
    var sentAt: Option<Time>
    var windowStart: Option<Time>
    var sendCount: nat

    ghost function View(): User
      reads this
    {
      User(verified, token, expires, attempts, sentAt, windowStart, sendCount)
    }

    /** register: the first code is sent unchecked. */
    constructor (now: Time, code: string)
      ensures Some(View()) == Next(None, Register(now, code))
    {
      verified, token, expires, attempts := false, None, None, 0;
      sentAt, windowStart, sendCount := None, None, 0;
      new;
      IssueVerificationCode(now, code);
    }

    /** can_send_code. */
    method CanSendCode(now: Time) returns (allowed: bool)
      ensures allowed == CanSend(View(), now)
    {
      if sentAt.Some? && now - sentAt.value < COOLDOWN {
        return false;
      }
      var windowOpen := windowStart.Some? && now - windowStart.value < HOUR;
      return !(windowOpen && sendCount >= MAX_SENDS);
    }

    /** issue_verification_code. */
    method IssueVerificationCode(now: Time, code: string)
      modifies this
      ensures View() == Issue(old(View()), now, code)
    {
      token := Some(code);
      expires := Some(now + TTL);
      attempts := 0;
      sentAt := Some(now);
      if windowStart.None? || now - windowStart.value >= HOUR {
        windowStart := Some(now);
        sendCount := 1;
      } else {
        sendCount := sendCount + 1;
      }
    }

    /** clear_verification_state. */
    method ClearVerificationState()
      modifies this
      ensures View() == NEW_USER.(verified := old(verified))
    {
      token, expires, attempts := None, None, 0;
      sentAt, sendCount, windowStart := None, 0, None;
    }

    /** resend_verification. */
    method ResendVerification(check: Time, issue: Time, code: string) returns (sent: bool)
      modifies this
      ensures Some(View()) == Next(Some(old(View())), Resend(check, issue, code))
      ensures sent == Sends(Some(old(View())), Resend(check, issue, code))
    {
      var allowed := CanSendCode(check);
      sent := !verified && allowed;
      if sent {
        IssueVerificationCode(issue, code);
      }
    }

    /** verify_email. */
    method VerifyEmail(now: Time, code: string) returns (confirmed: bool)
      modifies this
      ensures Some(View()) == Next(Some(old(View())), Verify(now, code))
      ensures confirmed <==> !old(verified) && verified
    {
      if verified || attempts >= MAX_ATTEMPTS {
        return false;
      }
      if !(token == Some(code) && expires.Some? && !(expires.value < now)) {
        attempts := attempts + 1;
        return false;
      }
      verified := true;
      ClearVerificationState();
      return true;
    }

    /** What a password reset does to an unverified account. */
    method ConfirmByReset(now: Time)
      modifies this
      ensures Some(View()) == Next(Some(old(View())), ResetPassword(now))
    {
      if !verified {
        verified := true;
        ClearVerificationState();
      }
    }
  }
}
