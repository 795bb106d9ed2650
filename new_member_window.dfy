/** The member form (`NewMemberWindow`): the record it starts from. The length rules are
    `App.MemberNameValid`/`App.MemberEmailValid`; the append on submit is
    `Board.NewMemberDialog.Submit`. */
module NewMemberWindow {
  import opened Wrappers
  import opened Model
  import App

  /** The picture every new member gets. */
  const DefaultPicture: string := "https://images.unsplash.com/photo-1544502062-f82887f03d1c?ixlib=rb-1.2.1&ixid=MnwxMjA3fDB8MHxwaG90by1wYWdlfHx8fGVufDB8fHx8&auto=format&fit=crop&w=2159&q=80"

  /** Formik's `initialValues` for the id allocated when the form opens. */
  function DefaultNewMember(id: string): (m: Member)
    ensures m.id == id && m.name == "" && m.email == Some("") && m.profilePicture == DefaultPicture
  {
    Member(id, "", Some(""), DefaultPicture)
  }

  /** The form's initial record cannot be submitted as it is: both fields are empty. */
  lemma DefaultNewMemberRejected(id: string)
    ensures !App.MemberNameValid(DefaultNewMember(id).name)
    ensures !App.MemberEmailValid(DefaultNewMember(id).email.value)
  {
  }
}
