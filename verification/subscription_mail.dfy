/** The confirmation-mail job: the key it is queued under and the recipient
    its handler addresses. Rendering the message and sending it are not part of
    this model. */
module SubscriptionMail {
  import opened Common
  import opened Entities

  /** The key the job's handler is registered under. */
  const Key: string := "SubscriptionMail"

  /** The job enqueued when `name <email>` subscribes to `meetup`: queued
      under the handler's key, and the handler's destructuring of its data
      gives back exactly the meetup, name and email that were enqueued. */
  function NewJob(meetup: MeetupView, name: string, email: string): (j: Job)
    ensures j.key == "SubscriptionMail"
    ensures j.data.meetup == meetup && j.data.name == name && j.data.email == email
  {
    Job(Key, MailData(meetup, name, email))
  }

  /** The address the handler mails: the organizer joined into the job's
      meetup. `None` when the organizer join found no row, where reading
      `meetup.user.name` throws and no mail is sent. */
  function Recipient(j: Job): (to: Option<Profile>)
  {
    j.data.meetup.organizer
  }

  /** The confirmation goes to the meetup's organizer, whoever subscribed:
      the subscriber's name and email do not change the recipient. */
  lemma RecipientIsOrganizer(meetup: MeetupView, name: string, email: string, name': string, email': string)
    ensures Recipient(NewJob(meetup, name, email)) == meetup.organizer
    ensures Recipient(NewJob(meetup, name, email)) == Recipient(NewJob(meetup, name', email'))
  {
  }
}
